# Verified models of the Nexus protocol and directory core

This project models the parts of the Nexus backend that carry its protocol logic and proves properties of them with
Dafny 4.11. `dafny verify dfyconfig.toml` checks everything.

- **Kerberos KDC** (`Der`, `KerberosFields`, `PrincipalNames`, `KerberosAccounts`, `KerberosCrypto`, `Pac`,
  `KerberosTickets`, `Kdc`, `ClientRequests`, `Revocation`, `TicketLifeCycle`, `ClientLifeCycle`). The KDC keeps no
  state: everything rests on one service reading back what it wrote earlier, through nested elements and encryption. The
  DER writer and reader, the field codecs, the ticket builders and readers, the certificate layout and the decision
  procedures are modelled as the code has them, and the results climb from single elements to the whole exchange, from a
  client's key to its service.
- **DNS** (`DnsNames`, `DnsZones`, `DnsResponses`, `DnsUpdates`, `DnsMessages`, `DnsStore`, `DnsReplicas`,
  `DnsReceived`, `DnsRegistration`, `DnsSeed`). Name codec with compression pointers, response builder, UPDATE parser,
  the update applied in memory and the same update as SQL statements on rows.
- **Directory** (`ValueLists`, `Attributes`, `Membership`, `Enrichment`, `GroupSync`). The case-insensitive attribute
  map changed in place, multi-valued attributes packed into strings, and group membership kept both as rows and inside
  the members.
- **Kernels** (`NFold`, `Utf16`, `Base32`, `Dhcp`), on `Octets`, `Bits`, `Texts` and `Buffers`.

Conventions: `std::string` and byte vectors are sequences of bytes. Integer widths, truncating casts and wrap-around are
written out where the code has them. Loops that update variables are methods with loops, proved equal to a function, and
objects changed in place are classes; the properties are then proved about the functions. Exceptions and `nullopt`
become `None`. AES, AES-CTS and HMAC are function values with the laws `Lawful` (lengths, decryption inverts encryption
under the same key). Clock readings, random bytes and the identity part of the certificate are parameters
(`Supplies`). What a PostgreSQL server reads from a quoted literal and what its lower() does are functions too
(`Postgres`), with one law (`Faithful`): on texts of the bytes 1 to 127 a literal stands for itself and lower() maps the
letters A to Z alone. Kerberos readers work on an element's content; `Der.FindRefines`, `Der.ReadNodeIsLocal` and
`KerberosFields.FirstChildIsHead` show that this is what the offset arithmetic does.

Where the code and the standards or its own documentation part, the model follows the code:

- a DNS UPDATE add replaces the whole (name, type) set, section 3.4.2.2 of RFC 2136 appends (`DnsStore.AddReplaces`);
- a delete of one record (class NONE) whose data cannot be parsed has an empty value and so deletes the whole set
  (`DnsReceived.ValuelessDelete`);
- the lengths of DER elements are written in at most three bytes, so longer payloads lose their upper bits;
- `trim_trailing_dot` takes one dot in kerberos.cpp and all dots in dns.cpp and the network daemon, and SQL takes none
  (`DnsReceived.TrailingDotsDiverge`); literals end at a NUL byte, so SQL can store less than memory
  (`DnsReceived.NulBytesDiverge`);
- the KDC checksum of the certificate covers the whole 16-byte server buffer, section 2.8 of MS-PAC only the signature;
- `allocate_next_lease` hands a client's lease back whatever its state, and scans past 255.255.255.255 to 0.0.0.0;
- principal matching is not transitive through names that carry the realm (`PrincipalNames.TransitiveExactlyThrough`);
- the AS lookup goes by name and realm and every later lookup by name alone (`KerberosAccounts.LookupsAgreeExactlyWhen`);
- users and computers are created with the identifiers 513 and 515 in groupRids and without entries in the member
  attributes of these groups, which therefore start out of step (`GroupSync.ChangedGroupInStep`);
- a group member listed in two spellings over time gets its row but not its group identifier.

## Model

| member | source | states |
|---|---|---|
| `ClientLifeCycle.LoginToService` | backend/libs/protocol/src/kerberos.cpp:2244-2553 | End to end on bytes: the AS request a client writes with a timestamp sealed under its key is granted; the TGS request it then writes for any available service is granted; it reads both session keys out of the two replies; and the service accepts its AP-REQ for the same account, in the upper-case realm, under the very key it has read |
| `ClientLifeCycle.LoginAnswered` | backend/libs/protocol/src/kerberos.cpp:2421-2484 | Every login a client writes is answered with 6 exactly for unknown accounts and 18 exactly for blocked ones, with 14 without a key of its type, and, sealed under the account's key, with 24 exactly if no timestamp was sealed and with a ticket-granting ticket exactly if krbtgt and the reply type's keys allow it |
| `ClientLifeCycle.LoginIsGranted` | backend/libs/protocol/src/kerberos.cpp:2421-2484 | The AS request bytes of a known, unblocked client with a timestamp under its key are answered with the AS-REP for its account |
| `ClientLifeCycle.LoginIsPossible` | backend/libs/protocol/src/kerberos.cpp:2421-2484 | Everything the end-to-end result asks of accounts and login can be met: a realm, an account and a login that do |
| `TicketLifeCycle.TicketLifeCycle` | backend/libs/protocol/src/kerberos.cpp:2334-2553 | A ticket-granting ticket from any AS-REP, presented with an authenticator under its session key, buys a service ticket for any available service; the client reads the new key out of the TGS-REP under its session key; and that ticket is accepted by the service for the same account, in the upper-case realm, under that key. Of the accounts it asks stable names, and of the client's name that it does not first find an account of another realm |
| `TicketLifeCycle.ClientReadsTgsReply` | backend/libs/protocol/src/kerberos.cpp:1875-1917 | The client, under the session key of its ticket-granting ticket, reads from the TGS-REP the key for the service, its own nonce, and the flags, times, realm and server name that were issued |
| `TicketLifeCycle.TgtIsAccepted` | backend/libs/protocol/src/kerberos.cpp:2490-2512 | The TGS branch opens the presented ticket to exactly the issued client, the upper-case realm, the encryption type and the session key of the AS-REP, for every request, reply and authenticator that fits in 65535 bytes |
| `TicketLifeCycle.ServiceTicketIsAccepted` | backend/libs/protocol/src/kerberos.cpp:1875-1917 | A service ticket from any TGS-REP is accepted for an unblocked client and service with the client, service name, realm and key it was issued for, whatever the options and the optional subkey |
| `TicketLifeCycle.ClientReadsAsReply` | backend/libs/protocol/src/kerberos.cpp:1745-1804 | The client, under its own long-term key, reads from the AS-REP the session key that is in the ticket, its own nonce, and the flags, times, realm and server name that were issued |
| `TicketLifeCycle.SameClient` | backend/libs/protocol/src/kerberos.cpp:738-771 | The ticket names the account it was granted to, and every later lookup by that name finds this account if and only if the client's name finds no account of another realm first |
| `Kdc.AsReplyExactlyWhen` | backend/libs/protocol/src/kerberos.cpp:2421-2484 | Over all byte strings: an AS-REP is the answer if and only if the client is known with key material, neither disabled nor expired, its first encrypted timestamp opens under its key to a time, krbtgt is known, and the reply type is the first one both hold with usable AES keys; and the message is the one for exactly these keys |
| `Kdc.TgsReplyExactlyWhen` | backend/libs/protocol/src/kerberos.cpp:2486-2551 | A TGS-REP is the answer if and only if the presented ticket and authenticator open, the service is known with keys and unblocked, and the client, if known, is unblocked |
| `Revocation.BlockedGetNoTgt` | backend/libs/protocol/src/kerberos.cpp:2421-2484 | Disabling or expiring one account turns the AS-REPs for that account, and no others, into code 18 |
| `Revocation.BlockedGetNoTicket` | backend/libs/protocol/src/kerberos.cpp:2486-2551 | It turns the TGS-REPs on tickets of that client into code 18 and those for that service into code 19, and leaves every other TGS-REP as it was, byte for byte |
| `Revocation.BlockedEnterNowhere` | backend/libs/protocol/src/kerberos.cpp:2334-2419 | It rejects exactly the accepted AP-REQs of that client or for that service and changes no other verdict |
| `Revocation.AliasesEnterAlike` | backend/libs/protocol/src/kerberos.cpp:2334-2419 | A service that expects one of its names reaches the same verdict on every AP-REQ as under any alias of that name, if neither name has two keys |
| `Kdc.TgtRefusals` | backend/libs/protocol/src/kerberos.cpp:2463-2484 | Behind the timestamp check: code 14 exactly when no reply type is shared, code 29 exactly when krbtgt is unknown or the chosen keys are unfit, and nothing else but the AS-REP |
| `Kdc.TicketRefusals` | backend/libs/protocol/src/kerberos.cpp:2514-2550 | For each error code behind an opened ticket-granting ticket, the condition under which it is the answer |
| `Kdc.ReplyEtypeExactly` | backend/libs/protocol/src/kerberos.cpp:1845-1873 | select_as_rep_enctype picks the first shared type of a non-empty list, else the timestamp's type if shared, else the client's first shared key; whatever it picks, both sides have a key, so the two missing-key branches after it are unreachable |
| `KerberosAccounts.SelectedEtype` | backend/libs/protocol/src/kerberos.cpp:1845-1873 | A selected type is held by client and krbtgt and is the first such in the list; none is selected only if none is shared |
| `KerberosAccounts.SelectedServiceKey` | backend/libs/protocol/src/kerberos.cpp:1832-1843 | The chosen service key is the first requested type the service has, is found again under its own type, and is missing only when the service has no usable key |
| `KerberosAccounts.KeyFor` | backend/libs/protocol/src/kerberos.cpp:804-811 | A key for a type is a usable key of that type, and there is none only if no usable key has the type |
| `KerberosAccounts.CollectUsableKeys` | backend/libs/protocol/src/kerberos.cpp:784-795 | The loop over an account's keys collects, in order, those that are usable once their type is completed from its name |
| `KerberosAccounts.LookupsAgreeExactlyWhen` | backend/libs/protocol/src/kerberos.cpp:738-771 | Lookup by name and this realm and lookup by name alone give the same result if and only if the name alone finds no account or one of this realm |
| `KerberosAccounts.SameNameByRealm` | backend/libs/protocol/src/kerberos.cpp:738-771 | The name of the account found by name and realm finds, by name alone, what the client's name finds |
| `KerberosAccounts.LookupsCanDiffer` | backend/libs/protocol/src/kerberos.cpp:738-771 | An input on which they part: an earlier account of another realm under the client's name |
| `KerberosAccounts.FoundAgain` | backend/libs/protocol/src/kerberos.cpp:762-771 | The account a good name finds is found again under its own name |
| `Kdc.ReadPadata` | backend/libs/protocol/src/kerberos.cpp:554-596 | The loop over pre-authentication elements yields the types in order, the readable encrypted timestamps in order and the last AP-REQ, and keeps what came before a malformed element |
| `ClientRequests.RequestReads` | backend/libs/protocol/src/kerberos.cpp:2244-2302 | Every AS or TGS request in the form of section 5.4.1 of RFC 4120 that fits in 65535 bytes is parsed to exactly the values it was written from |
| `KerberosTickets.TicketPartReads` | backend/libs/protocol/src/kerberos.cpp:1175-1204 | parse_enc_ticket_part undoes enc_ticket_part_for_client: client (its components joined), upper-case realm, type and session key, with or without a certificate |
| `KerberosTickets.TicketPartStates` | backend/libs/protocol/src/kerberos.cpp:1674-1704 | The ticket part states its flags, its four times, and its certificate if and only if one was made |
| `KerberosTickets.AuthorizationDataReads` | backend/libs/protocol/src/kerberos.cpp:1624-1634 | The certificate is found unchanged inside AD-IF-RELEVANT and AD-WIN2K-PAC |
| `KerberosTickets.ApReqReads` | backend/libs/protocol/src/kerberos.cpp:1206-1250 | parse_ap_req reads from an AP-REQ the options, the ticket's realm, service name and encrypted part, and the authenticator |
| `KerberosTickets.SealedTicketOpens` | backend/libs/protocol/src/kerberos.cpp:1787-1790 | A sealed ticket opens under the service's key and the ticket usage to the issued session, flags, times and certificate |
| `KerberosTickets.AuthenticatorOpens` | backend/libs/protocol/src/kerberos.cpp:1252-1298 | What is sealed under a session key's hexadecimal form opens under it, for every usage |
| `KerberosTickets.AsRepOpens` | backend/libs/protocol/src/kerberos.cpp:1771-1804 | The AS-REP as a whole: ticket for krbtgt, client part for the client, both about the same fresh session key |
| `KerberosTickets.TgsRepOpens` | backend/libs/protocol/src/kerberos.cpp:1875-1917 | The TGS-REP as a whole: ticket for the service, client part under the session key of the ticket-granting ticket |
| `KerberosTickets.AsRepSucceeds` | backend/libs/protocol/src/kerberos.cpp:1771-1804 | Building an AS-REP throws exactly for types other than 17 and 18 and keys that are no AES keys |
| `KerberosTickets.TgsRepSucceeds` | backend/libs/protocol/src/kerberos.cpp:1875-1917 | Building a TGS-REP throws exactly for such types, such service keys and session keys that are no AES keys |
| `KerberosTickets.ReplyReads` | backend/libs/protocol/src/kerberos.cpp:1796-1803 | Message type, realm, client, ticket and encrypted part are read back from a reply |
| `KerberosTickets.ReplyPartReads` | backend/libs/protocol/src/kerberos.cpp:1758-1768 | Key, nonce, flags, times, realm and server name are read back from the encrypted part of a reply |
| `KerberosFields.PrincipalReads` | backend/libs/protocol/src/kerberos.cpp:231-247 | context_principal undoes principal_name_from_string exactly for names without empty components (or of slashes only); other names come back with their empty components gone |
| `KerberosFields.ReadPrincipal` | backend/libs/protocol/src/kerberos.cpp:423-461 | The offset-driven reader, with its two loops, computes the name that the contents hold |
| `KerberosFields.ReadStrings` | backend/libs/protocol/src/kerberos.cpp:437-450 | The sibling walk over name strings terminates and collects the strings of both kinds, or fails on the first malformed element |
| `KerberosFields.JoinParts` | backend/libs/protocol/src/kerberos.cpp:452-460 | The joining loop puts a slash before a part unless nothing has been written yet |
| `KerberosFields.PrincipalNameFromString` | backend/libs/protocol/src/kerberos.cpp:231-247 | The builder writes the components, or the whole name if it has none, with name type 2 exactly for several components |
| `KerberosFields.SplitPrincipalComponents` | backend/libs/protocol/src/kerberos.cpp:214-229 | The scanning loop terminates and yields the non-empty pieces between slashes |
| `KerberosFields.ReadIntegers` | backend/libs/protocol/src/kerberos.cpp:463-483 | The walk over an integer sequence keeps what it read before a malformed element |
| `KerberosFields.KeyReads` | backend/libs/protocol/src/kerberos.cpp:1153-1173 | An encryption key is read back with its type and value |
| `KerberosFields.DataReads` | backend/libs/protocol/src/kerberos.cpp:523-544 | Encrypted data is read back with its type and cipher |
| `KerberosFields.NodeDerReads` | backend/libs/protocol/src/kerberos.cpp:339-343 | Cutting a node's own bytes out and reading them again finds the same element |
| `KerberosFields.FirstChildIsHead` | backend/libs/protocol/src/kerberos.cpp:345-347 | first_child on offsets is the first element of the contents |
| `Der.FieldOfEncode` | backend/libs/protocol/src/kerberos.cpp:349-363 | find_child over a concatenation of tlv(t, p) with payloads of at most 65535 bytes returns the first payload with the wanted tag |
| `Der.TlvRoundTrip` | backend/libs/protocol/src/kerberos.cpp:123-128 | An element is read back if and only if its payload has at most 65535 bytes; the three-byte length form keeps only sixteen bits |
| `Der.ElementsOfEncode` | backend/libs/protocol/src/kerberos.cpp:130-133 | A concatenation of short elements is read back element by element, to its end |
| `Der.ReadNode` | backend/libs/protocol/src/kerberos.cpp:321-337 | On arbitrary bytes a node lies inside its limit and the buffer and ends past its start |
| `Der.ReadNodeIsLocal` | backend/libs/protocol/src/kerberos.cpp:321-337 | What is found depends only on the bytes between offset and limit, although the length reader looks at the whole buffer |
| `Der.FindRefines` | backend/libs/protocol/src/kerberos.cpp:349-363 | The offset-driven search agrees with the search in the contents, both when it finds and when it fails |
| `Der.FindChild` | backend/libs/protocol/src/kerberos.cpp:349-363 | The search loop terminates on arbitrary bytes and computes that search |
| `Der.WalkStep` | backend/libs/protocol/src/kerberos.cpp:437-449 | One step of any sibling walk, seen on contents: the element, and a strictly shorter rest |
| `Der.ReadLengthAt` | backend/libs/protocol/src/kerberos.cpp:301-319 | The length loop reads one to four bytes, most significant first, and never out of bounds |
| `Der.AppendTlv` | backend/libs/protocol/src/kerberos.cpp:130-133 | Appends tag, length and payload behind what the buffer held |
| `Der.AppendLength` | backend/libs/protocol/src/kerberos.cpp:108-121 | Appends the one-, two- or three-byte length form |
| `Der.IntegerBytes` | backend/libs/protocol/src/kerberos.cpp:135-153 | The shifting loop writes the shortest form with a clear sign bit |
| `Der.ReadInteger` | backend/libs/protocol/src/kerberos.cpp:365-371 | The accumulating int, wrapping around, ends as the content's value modulo 2^32 in two's complement |
| `Der.IntegerRoundTrip` | backend/libs/protocol/src/kerberos.cpp:365-371 | integer_from_content undoes integer_value for every 32-bit int |
| `Der.EchoedExactlyWhen` | backend/libs/protocol/src/kerberos.cpp:1762 | Reading and re-encoding (the echoed nonce) gives the same bytes if and only if the content is canonical and below 2^32 |
| `Der.IntegerValueIsCanonical` | backend/libs/protocol/src/kerberos.cpp:135-153 | integer_value is canonical and denotes the 32 bits of its argument |
| `PrincipalNames.MatchesExactlyWhen` | backend/libs/protocol/src/kerberos.cpp:663-669 | On names whose key is stable, matching is equality of keys (names with an empty key need the same spelling) |
| `PrincipalNames.MatchesIsEquivalence` | backend/libs/protocol/src/kerberos.cpp:663-669 | So matching is symmetric and transitive there, and reflexive but for the empty name |
| `PrincipalNames.StableExactlyWhen` | backend/libs/protocol/src/kerberos.cpp:636-648 | A key is stable if and only if it has no trailing dot and does not end in the realm suffix |
| `PrincipalNames.TransitiveExactlyThrough` | backend/libs/protocol/src/kerberos.cpp:650-669 | For every realm and every name b: whatever matches b matches everything that b matches, if and only if b does not carry the realm behind a non-empty rest |
| `PrincipalNames.MatchingIsNotTransitive` | backend/libs/protocol/src/kerberos.cpp:650-669 | An input on which it fails, although two of the three names are stable: x@r@r, x@r and x |
| `PrincipalNames.AliasesFindTheSame` | backend/libs/protocol/src/kerberos.cpp:762-771 | First-match lookup by any two stable names of one key finds the same entry |
| `PrincipalNames.FoundNameFindsItself` | backend/libs/protocol/src/kerberos.cpp:762-771 | The entry found is found again under its own name |
| `PrincipalNames.RealmSpelling` | backend/libs/protocol/src/kerberos.cpp:636-648 | The case of the realm makes no difference to keys, matching or stability |
| `KerberosCrypto.DecryptInvertsEncrypt` | backend/libs/protocol/src/kerberos.cpp:1100-1126 | Decryption under the same key and usage gives the plaintext back if and only if it is not empty, for every key text, usage and confounder that encryption accepts |
| `KerberosCrypto.EncryptSucceeds` | backend/libs/protocol/src/kerberos.cpp:2204-2226 | Encryption throws exactly for keys that are no AES keys and confounders that are not 16 bytes, and adds 28 bytes |
| `KerberosCrypto.ShortcutChangesNothing` | backend/libs/security/src/ad_crypto.cpp:288-290 | The shortcut for 16-byte constants changes nothing, because folding to the own size is the identity |
| `KerberosCrypto.Dk` | backend/libs/protocol/src/kerberos.cpp:989-998 | The derivation loop terminates and chains as many blocks as the key is long |
| `KerberosCrypto.DecodeHex` | backend/libs/protocol/src/kerberos.cpp:813-827 | The pairwise loop, with stoul's leniency in each pair, or failure on the first unreadable pair |
| `KerberosCrypto.EncodeHex` | backend/libs/protocol/src/kerberos.cpp:829-836 | The loop writes two lower-case digits per byte |
| `KerberosCrypto.HexRoundTrip` | backend/libs/protocol/src/kerberos.cpp:813-836 | hex_to_bytes undoes bytes_to_hex, so session keys survive the detour through text |
| `KerberosCrypto.LawsAreConsistent` | backend/libs/protocol/src/kerberos.cpp:1039-1098 | The laws assumed of AES and HMAC can be met |
| `NFold.FoldIsChunkSum` | backend/libs/security/src/ad_crypto.cpp:206-242 | Section 5.1 of RFC 3961: read big-endian, the result is congruent modulo 2^(8n)-1 to the sum of the n-byte chunks of the copies, each copy rotated 13 bits further, and is zero only if every chunk is |
| `NFold.NFold` | backend/libs/protocol/src/kerberos.cpp:910-946 | The nested loops over bits, bytes and carries compute that result, for empty input or output too |
| `NFold.FoldIn` | backend/libs/protocol/src/kerberos.cpp:928-943 | Byte-wise addition with end-around carry adds one chunk in ones' complement arithmetic |
| `NFold.PropagateCarry` | backend/libs/protocol/src/kerberos.cpp:936-943 | The carry loop terminates, its measure being the value plus the carry still to come |
| `NFold.BuildChunk` | backend/libs/protocol/src/kerberos.cpp:916-927 | The bit loop assembles the bytes of one chunk from the rotated copies |
| `NFold.FoldToOwnSize` | backend/libs/protocol/src/kerberos.cpp:990 | n-fold to the input's own size is the identity |
| `NFold.CopiesAt` | backend/libs/protocol/src/kerberos.cpp:919-924 | The index arithmetic of the loop body reads the bit of the rotated copy it is meant to read |
| `Pac.PacLayout` | backend/libs/protocol/src/kerberos.cpp:1563-1586 | For any buffer list below 4 GiB: every descriptor states its buffer's type and size and an offset divisible by eight, past the header, where exactly that buffer lies, in bounds |
| `Pac.BuffersAreDisjoint` | backend/libs/protocol/src/kerberos.cpp:1563-1586 | No two buffers overlap |
| `Pac.BuildPac` | backend/libs/protocol/src/kerberos.cpp:1563-1586 | The loop growing header and data computes that layout |
| `Pac.PacVerifies` | backend/libs/protocol/src/kerberos.cpp:1588-1622 | Clearing the twelve signature bytes of the type-6 and type-7 buffers in the finished certificate gives exactly the bytes the server checksum was computed over; the KDC checksum is over the whole 16-byte type-6 buffer |
| `Pac.ClearedPac` | backend/libs/protocol/src/kerberos.cpp:1376-1384 | Clearing both signatures gives the certificate with empty signatures |
| `Pac.SplicePac` | backend/libs/protocol/src/kerberos.cpp:1610-1621 | Replacing a buffer by one of the same size changes just its bytes in the certificate |
| `DnsNames.ReadNameOfEncoding` | backend/libs/protocol/src/dns.cpp:90-134 | Labels ending in a zero or in pointers decode to the joined name with the offset just past the first pointer, for chains of up to 8 pointers, and fail for longer ones |
| `DnsNames.ReadName` | backend/libs/protocol/src/dns.cpp:90-134 | On any bytes, self-referring pointers included: a successful read ends strictly further on, inside the buffer, with a non-empty name |
| `DnsNames.ReadDnsName` | backend/libs/protocol/src/dns.cpp:90-134 | The label loop with its recursion terminates, reads in bounds and computes that decoding |
| `DnsNames.ReadsSpelling` | backend/libs/protocol/src/dns.cpp:90-134 | The same from inside a name, at any depth, behind any text read so far |
| `DnsNames.NameRoundTrip` | backend/libs/protocol/src/dns.cpp:136-163 | read_dns_name undoes write_dns_name if and only if every label has 1 to 63 bytes; otherwise the leading labels come back |
| `DnsNames.WrittenNameReads` | backend/libs/protocol/src/dns.cpp:136-163 | What any written name, proper or not, is read back as, anywhere in a message |
| `DnsNames.WriteDnsName` | backend/libs/protocol/src/dns.cpp:136-163 | The writing loop appends the labels up to the first over-long one, and a zero |
| `DnsResponses.ResponseWellFormed` | backend/libs/protocol/src/dns.cpp:652-701 | For every non-UPDATE query with a readable question: id and question echoed, ANCOUNT the number of matching records, the answers read back are exactly those records in zone order, and skipping ANCOUNT records lands on the end of the buffer |
| `DnsResponses.AnswersReadBack` | backend/libs/protocol/src/dns.cpp:684-698 | A run of answers is read back with names, types, TTLs and data, behind any prefix |
| `DnsResponses.ResolveDnsQuery` | backend/libs/protocol/src/dns.cpp:652-701 | The whole query function, with its replies to updates and to unreadable questions, builds that response |
| `DnsResponses.AppendRecordData` | backend/libs/protocol/src/dns.cpp:464-492 | Appends the wire form of the record's data, nothing for an unreadable address |
| `DnsResponses.AppendAnswer` | backend/libs/protocol/src/dns.cpp:684-698 | Writes an answer with a provisional length and patches the length afterwards |
| `DnsResponses.AppendAnswers` | backend/libs/protocol/src/dns.cpp:684-698 | The loop over the matching records |
| `DnsResponses.SkipDnsRecords` | backend/libs/protocol/src/dns.cpp:317-334 | The skipping loop terminates on arbitrary bytes, in bounds |
| `DnsResponses.Ipv4RoundTrip` | backend/libs/protocol/src/dns.cpp:245-253 | The text an update stores for four bytes is served as the same four bytes |
| `DnsZones.TypeCodeOfName` | backend/libs/protocol/src/dns.cpp:205-222 | The type an update stores has the code the update carried |
| `DnsZones.MatchingRecordsOwner` | backend/libs/protocol/src/dns.cpp:504-514 | Every matching record belongs to the question's name, in zone order |
| `DnsUpdates.FqdnOfRelativeName` | backend/libs/protocol/src/dns.cpp:224-243 | record_fqdn undoes relative_update_name for the apex and, below it, exactly for plain relative names |
| `DnsUpdates.ParseUpdateRecords` | backend/libs/protocol/src/dns.cpp:336-383 | The record loop terminates and yields the entries, or none at all after a malformed record |
| `DnsUpdates.ParseDnsDynamicUpdate` | backend/libs/protocol/src/dns.cpp:611-650 | The message parser with its three skipped sections computes the update |
| `DnsUpdates.ParseUpdate` | backend/libs/protocol/src/dns.cpp:611-650 | Only valid and authorised updates carry entries |
| `DnsUpdates.AuthorizedZone` | backend/libs/protocol/src/dns.cpp:189-203 | An update is authorised exactly for a served zone or its _msdcs child, and names one of the two |
| `DnsStore.UpdateShape` | backend/apps/network/main.cpp:150-163 | One pass maps the records S to filter(S) followed by a list that depends on the update alone |
| `DnsStore.UpdateIdempotent` | backend/apps/network/main.cpp:134-167 | Applying an update twice leaves exactly the record sequence of applying it once, for every mix of adds and deletes |
| `DnsStore.AddReplaces` | backend/apps/network/main.cpp:154-162 | An add removes the whole (name, type) set before it appends |
| `DnsStore.AddedAlone` | backend/apps/network/main.cpp:150-163 | An added record that no later entry deletes stays, alone in its set |
| `DnsStore.UpdateVisible` | backend/apps/network/main.cpp:134-167 | After the update a question for the record's name and type finds it, and nothing else when stored names are relative |
| `DnsStore.OwnerVisible` | backend/apps/network/main.cpp:134-167 | The same for the owner name on the wire, at the apex or plainly below it, the record being the only answer there too |
| `DnsStore.PassesAgreeExactly` | backend/apps/network/main.cpp:150-163 | Two passes with different rules of deletion, one deleting no more than the other, end alike if and only if every stored record the one loses the other loses, and every added record it overrides the other overrides |
| `DnsStore.TwiceIsOnce` | backend/apps/network/main.cpp:150-163 | A pass repeats without effect under any rules by which an add deletes its own record |
| `DnsReplicas.ZoneList.ApplyUpdate` | backend/apps/network/main.cpp:134-167 | The loop over entries, erasing and appending in place and bumping the serial once, computes the new zone list |
| `DnsReplicas.EraseDeleted` | backend/apps/network/main.cpp:152-157 | erase(remove_if) keeps the other records in order |
| `DnsReplicas.DnsDatabase.PersistUpdate` | backend/apps/network/main.cpp:169-244 | The statements of the persist loop, on rows with ascending ids, compute the new tables |
| `DnsReplicas.DnsDatabase.DeleteRecords` | backend/apps/network/main.cpp:195-207 | The delete statement, for any server's lower() and literals: exactly the rows its three conditions name |
| `DnsReplicas.DnsDatabase.InsertRecord` | backend/apps/network/main.cpp:219-233 | The insert statement: one new row behind all ids with the values the server reads from the literals, an empty class as IN |
| `DnsReplicas.DnsDatabase.UpsertZone` | backend/apps/network/main.cpp:182-194 | The zone upsert leaves the records alone |
| `DnsReplicas.PersistIsPass` | backend/apps/network/main.cpp:195-240 | An update of any length on any server: reloading by id gives the pass of the entries under SQL's rules of deletion and storing, and no other zone changes |
| `DnsReplicas.SqlDeletesSpelled` | backend/apps/network/main.cpp:113-132 | On texts of the bytes 1 to 127 SQL deletes the same name and type up to case and, for one value, the same value up to case, always less than memory, which ignores trailing dots |
| `DnsReplicas.UpdateAgreesExactly` | backend/apps/network/main.cpp:150-240 | On such texts the statements and the in-memory pass end with the same ordered list if and only if every record that memory deletes SQL deletes too, stored or added earlier in the update |
| `DnsReplicas.UpdateKeepsAgreementExactly` | backend/apps/network/main.cpp:134-244 | One update keeps the copy in memory and the store in agreement, for all zones, if and only if it deletes alike on both sides |
| `DnsReplicas.RunsAgreeExactly` | backend/apps/network/main.cpp:134-244 | Along any run of updates they agree after every one if and only if each of them deletes alike on both sides |
| `DnsReplicas.SeparableIsAlike` | backend/apps/network/main.cpp:113-132 | Undotted names and values no two of which differ in trailing dots alone are enough for that |
| `DnsReplicas.RunsAgree` | backend/apps/network/main.cpp:134-244 | With such names and values they agree after every run, whatever is added and deleted |
| `DnsReplicas.UpdatedZonesServe` | backend/apps/network/main.cpp:134-167 | Memory serves the updated records for the update's zone and the old ones for every other |
| `DnsReplicas.RetransmissionHarmless` | backend/apps/network/main.cpp:134-167 | A retransmitted update changes no zone's records in memory |
| `DnsReplicas.StoredRetransmissionHarmless` | backend/apps/network/main.cpp:169-244 | Nor in the store |
| `DnsReplicas.FaithfulServers` | backend/apps/network/main.cpp:46-54 | What is assumed of a server can be met, by one whose literals end at a NUL byte too |
| `DnsReceived.UpdatesAreReceived` | backend/libs/protocol/src/dns.cpp:336-383 | Whatever bytes arrive: the zone name of a parsed update is canonical, and its entries are of class IN without flags, of known types, named relative to that zone, with host names that end in one dot |
| `DnsReceived.UndottedExactlyWhen` | backend/libs/protocol/src/dns.cpp:224-233 | A parsed name is without trailing dot if and only if its owner has no second dot in front of the zone |
| `DnsReceived.ValuelessDelete` | backend/libs/protocol/src/dns.cpp:255-378 | A delete of one record covers the whole (name, type) set if and only if it has no data, its data cannot be parsed, or it is a text record of the empty text |
| `DnsReceived.TrailingDotsDiverge` | backend/apps/network/main.cpp:113-207 | Two messages on which the sides part: the text "b" is added, then the text "b." deleted; memory loses the record, every faithful server keeps it |
| `DnsReceived.NulBytesDiverge` | backend/apps/network/main.cpp:46-54 | A message on which they part where literals end at a NUL byte: an added text that holds one is stored cut off |
| `DnsMessages.RecordMessageParses` | backend/libs/protocol/src/dns.cpp:611-650 | An UPDATE message with one record, of any type whose data holds no name, parses to the entry of that record for an authorised zone |
| `DnsRegistration.RegisteredAddressIsServed` | backend/libs/protocol/src/dns.cpp:611-701 | From UPDATE bytes to response bytes: a registered address is served with the four bytes and the TTL that were sent |
| `DnsRegistration.MessageParses` | backend/libs/protocol/src/dns.cpp:336-383 | The registration message parses to exactly one add of the owner's address |
| `DnsRegistration.RegistrationTakesEffect` | backend/apps/network/main.cpp:134-167 | After it has been applied, the address question matches a record with the registered bytes |
| `DnsSeed.MergeIdempotent` | backend/libs/protocol/src/dns.cpp:581-609 | Merging the seed zone again changes nothing, whatever the stored zones and the seed hold |
| `DnsSeed.MergeAdds` | backend/libs/protocol/src/dns.cpp:581-609 | The merge loses no stored record, adds every seed record that is missing and nothing else, never lowers a serial and leaves other zones alone |
| `DnsSeed.MergeSeed` | backend/libs/protocol/src/dns.cpp:581-609 | The in-place loop over the seed's records computes that merge |
| `Attributes.ModifyKeepsInvariant` | backend/apps/directory/main.cpp:1574-1638 | Every modify keeps the map sorted and without two keys equal up to case, and leaves all other attributes alone |
| `Attributes.AddRefinesList` | backend/apps/directory/main.cpp:1602-1630 | An add appends the missing values to the attribute's list, for both packings |
| `Attributes.DeleteRefinesList` | backend/apps/directory/main.cpp:1579-1600 | A delete with values filters the list, and the attribute is gone exactly when no value is left |
| `Attributes.AddTwice` | backend/apps/directory/main.cpp:1602-1630 | Adding the same values twice leaves the whole map as adding them once |
| `Attributes.DeleteUndoesAdd` | backend/apps/directory/main.cpp:1574-1638 | Deleting what was just added restores the list if and only if none of the values was there before |
| `Attributes.AttributeMap.ApplyModify` | backend/apps/directory/main.cpp:1574-1638 | The in-place method, all three operations, computes the new map |
| `Attributes.AttributeMap.FindAttribute` | backend/apps/directory/main.cpp:1505-1514 | The loop finds the first value under a name up to case |
| `Attributes.AttributeMap.SetAttribute` | backend/apps/directory/main.cpp:1516-1530 | Overwrites under the stored spelling, only an empty value if asked so, or inserts in key order |
| `Attributes.AttributeMap.RemoveAttribute` | backend/apps/directory/main.cpp:1532-1543 | Erases the first entry of that name and returns its value |
| `Attributes.MergeValues` | backend/apps/directory/main.cpp:1615-1628 | The merging loop trims, skips empty values and compares without case |
| `Attributes.KeepOthers` | backend/apps/directory/main.cpp:1590-1597 | The filtering loop keeps the trimmed values that no removal names |
| `Attributes.AnyEquals` | backend/apps/directory/main.cpp:1592-1594 | The search among the values to remove compares trimmed and without case |
| `Attributes.SetFinds` | backend/apps/directory/main.cpp:1516-1530 | A lookup after a set: the new value under the name, everything else as before |
| `Attributes.RemovedFinds` | backend/apps/directory/main.cpp:1532-1543 | A lookup after a removal: nothing under the name, everything else as before |
| `ValueLists.ValuesOfJoin` | backend/apps/directory/main.cpp:136-149 | Unpacking a packed list of clean values gives the list back, for both packings |
| `ValueLists.ValuesAreValues` | backend/apps/directory/main.cpp:298-317 | Whatever text an attribute holds, the values read from it can be packed again |
| `ValueLists.AddIdempotent` | backend/apps/directory/main.cpp:1617-1628 | Adding values that are there changes nothing |
| `ValueLists.RemoveUndoesAdd` | backend/apps/directory/main.cpp:1574-1638 | Removing what was added is removing it from the earlier list |
| `ValueLists.SplitIntoValues` | backend/apps/directory/main.cpp:108-125 | Both splitting loops: at commas, semicolons and line ends keeping spaces, or, for lists of distinguished names, not at commas and with trimming |
| `ValueLists.JoinValues` | backend/apps/directory/main.cpp:1553-1572 | Both joining loops put the separator only between values that are not blank |
| `Membership.RidListRoundTrip` | backend/apps/directory/main.cpp:386-395 | parse_u32_list undoes join_u32_list for every list of 32-bit numbers, order and repetitions included |
| `Membership.ParseU32List` | backend/apps/directory/main.cpp:283-296 | The parsing loop skips what stoul rejects and truncates to 32 bits |
| `Membership.JoinU32List` | backend/apps/directory/main.cpp:386-395 | The joining loop writes decimal numbers between commas |
| `Membership.ApplyGroupRidMembership` | backend/apps/directory/main.cpp:1650-1670 | The in-place change of groupRids, dropping the attribute when no number is left |
| `Membership.MembershipChange` | backend/apps/directory/main.cpp:1650-1670 | Afterwards the identifier is listed exactly if it was added; all other identifiers keep their values and order, all other attributes their values, and the map its invariant |
| `Membership.ToggledSpec` | backend/apps/directory/main.cpp:1654-1662 | Adding is idempotent, removing removes every occurrence, the rest keeps its order |
| `GroupSync.SyncSpec` | backend/apps/directory/main.cpp:1745-1826 | After a successful sync the group's rows are exactly the stored current members, rows of other groups are untouched, and every object is as the visits say |
| `GroupSync.AgreesExactlyWhen` | backend/apps/directory/main.cpp:1783-1793 | Rows and groupRids of a stored object agree after a sync if and only if a visit reached its stored spelling or there was nothing to change |
| `GroupSync.SpellingsDiverge` | backend/apps/directory/main.cpp:1757-1781 | They do come apart: a member listed before in another spelling gets its row but not its identifier |
| `GroupSync.AffectedSpelled` | backend/apps/directory/main.cpp:1757-1781 | With names spelled as stored, exactly the stored names among previous and current members are visited |
| `GroupSync.ChangedGroupInStep` | backend/apps/directory/main.cpp:2292-2307 | Whatever the state before: after a modify of its members a group's rows, the groupRids of all stored objects and its member attribute agree if and only if no object outside its old and new members lists its identifier |
| `GroupSync.OtherGroupsInStep` | backend/apps/directory/main.cpp:2292-2307 | Every other group with another identifier is in step afterwards if and only if it was before |
| `GroupSync.StepKeepsInStep` | backend/apps/directory/main.cpp:2292-2307 | So a modify of any group's members keeps in step each group that was, whatever the other groups are like |
| `GroupSync.RunsKeepInStep` | backend/apps/directory/main.cpp:2292-2307 | And so does every run of such modifies, group by group |
| `GroupSync.StepSpec` | backend/apps/directory/main.cpp:2292-2307 | An accepted modify on the whole tables: which identifiers, member lists and rows it touches, and that it touches no others |
| `GroupSync.Directory.SyncGroupMemberships` | backend/apps/directory/main.cpp:1745-1826 | The whole sync on the tables, with any of its SQL statements failing, and its verdict true exactly if none of the executed ones failed |
| `GroupSync.Directory.VisitMembers` | backend/apps/directory/main.cpp:1783-1793 | The member loop rewrites just the stored objects among the visited names |
| `GroupSync.Directory.InsertRows` | backend/apps/directory/main.cpp:1805-1823 | The insert loop adds a row per stored current member |
| `GroupSync.Directory.ModifyMembers` | backend/apps/directory/main.cpp:2278-2307 | Modify, enrich and store the group, then synchronise with the members it had before |
| `Enrichment.EnrichGroup` | backend/apps/directory/main.cpp:1911-2014 | The enrichment of a group object, attribute by attribute, in place |
| `Enrichment.EnrichmentKeeps` | backend/apps/directory/main.cpp:1911-2014 | Enriching keeps the map sorted and without two keys equal up to case, every non-empty attribute but the account name, and every attribute it does not derive |
| `Utf16.ConversionCorrect` | backend/libs/security/src/ad_crypto.cpp:134-175 | For every text, its UTF-8 form converts to its UTF-16LE form; and for arbitrary bytes the output is well-formed UTF-16 without unpaired surrogates |
| `Utf16.Utf16FromUtf8` | backend/libs/security/src/ad_crypto.cpp:134-175 | The decoding loop terminates on arbitrary bytes and computes that conversion, malformed sequences included |
| `Utf16.AppendUtf16LE` | backend/libs/security/src/ad_crypto.cpp:119-132 | One unit or a surrogate pair, low byte first |
| `Utf16.Utf16RoundTrip` | backend/libs/security/src/ad_crypto.cpp:119-132 | UTF-16LE loses nothing |
| `Utf16.ReadsUtf8` | backend/libs/security/src/ad_crypto.cpp:134-175 | Decoding the UTF-8 form of a text finds its scalar values |
| `Base32.RoundTrip` | backend/libs/security/src/totp.cpp:20-72 | base32_decode undoes base32_encode for byte strings of every length |
| `Base32.Base32Encode` | backend/libs/security/src/totp.cpp:20-39 | The loop computes the encoding although its int accumulator wraps around, because only the low bits left ever matter |
| `Base32.Base32Decode` | backend/libs/security/src/totp.cpp:41-72 | The same for decoding; other characters are skipped |
| `Base32.EncodeCarriesBits` | backend/libs/security/src/totp.cpp:20-39 | The symbols carry the input's bits in order, filled up to a multiple of five |
| `Dhcp.AllocateNextLease` | backend/libs/protocol/src/dhcp.cpp:34-64 | A client that has a lease gets it back; otherwise the lowest in-range address no non-expired lease holds, none only if all are held; with a range ending at 255.255.255.255 the scan wraps around below the range |
| `Dhcp.RoomForNewClient` | backend/libs/protocol/src/dhcp.cpp:34-64 | By pigeonhole a range with more addresses than there are leases never refuses a new client |
| `Dhcp.HeldNeedLeases` | backend/libs/protocol/src/dhcp.cpp:34-64 | As many leases as held addresses |
| `Dhcp.AllocateAndRecord` | backend/libs/protocol/src/dhcp.cpp:34-64 | Allocating and appending on the lease list is one step of a run |
| `Dhcp.StepKeepsDistinct` | backend/libs/protocol/src/dhcp.cpp:34-64 | Allocate-and-append and expire keep non-expired addresses distinct |
| `Dhcp.RunKeepsDistinct` | backend/libs/protocol/src/dhcp.cpp:34-64 | So does every run of them |
| `Dhcp.KnownClientExclusive` | backend/libs/protocol/src/dhcp.cpp:38-43 | A known client's address is its own alone if and only if its lease has not expired or nobody holds the address since |
| `Dhcp.ExpiredLeaseHandedBack` | backend/libs/protocol/src/dhcp.cpp:38-43 | The other case occurs: an expired lease is handed back although its address is someone else's |
| `Dhcp.IpRoundTrip` | backend/libs/protocol/src/dhcp.cpp:15-30 | ip_to_u32 undoes u32_to_ip for every address |
| `Dhcp.FindLease` | backend/libs/protocol/src/dhcp.cpp:38-43 | The first loop returns the client's first lease |

## Left out

- OpenSSL: AES, CTS mode, HMAC, PBKDF2, MD4 and X.509 are not modelled; only the inverse and length laws are assumed.
- Contents of the certificate's identity buffers (NDR logon information, client name and time, UPN and DNS names): they enter as parameters.
- Error replies of the KDC: reduced to their codes; texts, method data and the KRB-ERROR encoding are dropped.
- AP-REP token and password change service: the reply to a mutual AP-REQ, its acceptor subkey and the kpasswd exchange are not modelled.
- TicketLifeCycle.TicketLifeCycle: asks that the accounts' names are stable and that the client's name does not first find an account of another realm; without the latter the later lookups go to that other account (TicketLifeCycle.SameClient).
- Kdc.ValidateApReq: the session key is the one in the ticket; after a mutual reply the code hands out the acceptor subkey instead.
- KerberosTickets.AsRepOpens: generalized times are texts supplied from outside, so clock arithmetic (ten hours, seven days) is not checked.
- Kdc.AsReplyExactlyWhen: encrypted_timestamp_etypes of a request is not kept, as no decision reads it.
- Distinctness of derived keys and any secrecy or forgery argument: outside the assumed laws.
- DnsReplicas.RunsAgreeExactly: SQL statements that fail, and texts with bytes outside 1 to 127, where lower() follows the locale of the server, are not covered; serial numbers of the two sides are not compared.
- DNS zone file rendering, TCP framing and the seed records themselves: formatting and configuration.
- GroupSync.Directory.ModifyMembers: one changed attribute of an object of kind group; changes of several attributes at once, passwords, object classes and the enrichment of other kinds are not part of the step, and synthetic_rid is a parameter.
- GroupSync.RunsKeepInStep: SQL statements that succeed, and names spelled as stored (GroupSync.AgreesExactlyWhen says what happens otherwise).
- SAMR membership updates and LDAP rename or delete: other writers of the membership rows, not part of this model.
- Membership rows and objects as PostgreSQL keeps them: modelled as a set and a map; connections, retries and schema repair are plumbing.
- Dhcp.AllocateNextLease: the scan is only claimed to end when some address is free, or the range ends below 255.255.255.255.
- LDAP request decoding, RPC, SMB, HTTP handlers, the package repository, password hashing and the frontend: other components.
