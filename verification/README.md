# A model of the OpenSSL command-line tools

This project models seven files of the repository in Dafny and proves what they promise.

- **`openssl ca` and its OCSP reader.** The certificate table (`CaTable`, and `Database.CaDb`, the object changed in
  place), the policy engine and email removal (`Policy`, `Issue`), the revocation column (`RevInfo`, `TimeText`),
  the serial texts and the serial file (`Serial`, `SerialFile`), the CRL and OCSP views and where they agree (`Views`,
  `Agreement`), whole runs and histories of runs (`Runs`), the commit protocol on disk with a failure or a stop
  possible at every step (`Commit`), serial numbers over any number of interrupted commits (`Ledger`), and all of it
  together: one invocation on a disk (`Session`) and any number of them, each stopped anywhere (`Lifetime`).
- **`openssl passwd`.** `shacrypt` and `md5crypt` with the digest uninterpreted (`ShaCrypt`, `Md5Crypt`, `DigestFeed`),
  the 6-bit text encoding (`Crypt64`), and the C number and string routines they use (`Decimal`, `CStr`).
- **`openssl cms`, `cmp`, `enc`** (`CmsSigners`, `CmpConf`, `Enc`) and the byte channel of the **TLS benchmark** (`Duplex`).

Code that changes things in place is a class or a method over an array, proved against a specification function; what
the program promises is then proved of that function, and what each main operation comes to is stated a second time from
the rows, texts and files alone (the predicates whose names end in `Outcome`). Foreign code is a function-valued parameter: object
identifiers, the clock, `X509_NAME_oneline`, digests, ciphers, compression filters, the configuration file.
File operations may fail at the system's choice. In comments, `apps/` and `crypto/` stand for
`openssl/apps/` and `openssl/crypto/`.

Seven promises fail for some inputs. Each is kept as the code has it and given its exact condition:

- Every table that one run saves the next run loads exactly when the dates in it stay readable: no revocation is made
  outside the years of UTCTime, 1950 to 2049, and no certificate is added whose expiry cannot be read
  (`Runs.RunSoundExactly`, `RevInfo.ReadableExactlyBefore2050`). Both kinds are accepted and lock the table for good
  (`Runs.LateRevocationLocksTable`, `Runs.UnreadableExpiryLocksTable`, `Runs.LockedStays`).
- The attribute file, which overrides the configured unique_subject, is missing for a moment in every save. When the two
  disagree, a stop at that moment decides differently: with no in the file and yes configured the next run loads the table
  exactly when the attribute file is there or no name has two Valid rows (`Lifetime.ConfiguredYesLoads`,
  `Lifetime.StopLocksTable`); with yes in the file and no configured the next run works with no, saves no, and names are
  unique no longer (`Lifetime.StopLosesNames`). When they agree nothing of this happens (`Lifetime.MatchedLifeLoads`).
- OCSP finds the row that the CRL lists exactly when the serial column is plain: no lower-case hex digit, and no zero
  octet behind a minus sign (`Agreement.FoundExactlyWhenPlain`). Columns that are not plain pass the load check: "0a" and
  "-00" are listed in the CRL and unknown to OCSP, and "0a" Revoked beside "0A" Valid is answered GOOD. The two views
  agree on everything exactly when every Revoked row is plain or has a plain Revoked twin
  (`Agreement.CrlOcspAgreeExactly`). Everything the program itself writes is plain.
- A CRL lists no serial twice exactly when no two Revoked rows have columns for one number, that is, columns that agree
  after leading zeros and cases are taken away (`Agreement.CrlOnePerSerialExactly`); "0a" and "0A" load together and are
  listed as 10 twice (`Agreement.ListedTwice`).
- Certificates are written before the serial file moves. A certificate's number is used again exactly when a commit
  stopped between writing it and moving the serial file and no later commit has moved the serial past it
  (`Ledger.ExposedExactlyByStop`); the index file itself never gets a number twice.
- The serial file can be read back exactly when the number has at most 35 octets: a longer one is written on several
  lines, and the reader takes the continuation mark off twice (`SerialFile.ReadBackExactly`). From then on no batch can
  begin (`Lifetime.LoadsExactly`, `Lifetime.NoSerialNoBatch`).
- Feeding a whole password hash back as salt, as crypt(3) allows, reproduces it exactly when the salt has its full
  length (`ShaCrypt.RehashWhole`, `Md5Crypt.RehashWhole`); feeding back the part before the last '$' always does.

## Model

| member | source | states |
|---|---|---|
| `Lifetime.EveryLifeSound` | openssl/apps/ca.c:734-1334 | On every disk left by any number of whole invocations with readable dates, each stopped anywhere, and repairs of missing files: the current table (the index file, or its set-aside copy while that is missing) passes every check on loading but perhaps the one for names and continues every earlier one, and the serial is above every number that certify has put in it |
| `Lifetime.LoadsExactly` | openssl/apps/lib/apps.c:1673-1741 | On such a disk ca loads the table if and only if the index file is there and, when the attribute file or else the configuration says yes, no name has two Valid rows; ocsp the same with yes for the configuration; and requests can be certified if and only if besides the serial file is there with a number of at most 35 octets |
| `Lifetime.MatchedLifeLoads` | openssl/apps/ca.c:599-602 | When the attribute file agrees with the configured unique_subject at first: on every disk of such a life it still does, the run works with the configured value, names are unique if that is yes, and the table loads if and only if the index file is there |
| `Lifetime.ConfiguredYesLoads` | openssl/apps/lib/apps.c:1712-1722 | With yes configured and whatever the attribute file says: on every disk of such a life the table loads if and only if the index file is there and either the attribute file is there or no name has two Valid rows |
| `Lifetime.NamesStayUnique` | openssl/apps/lib/apps.c:1712-1722 | Names stay unique on every disk as long as each invocation finds unique_subject in force when it starts |
| `Lifetime.StopLocksTable` | openssl/apps/lib/apps.c:1857-1878 | With yes configured, no in the attribute file and two Valid rows of one name, a -valid stopped between the two attribute renames leaves a table that the next run refuses |
| `Lifetime.TwoOfOneName` | openssl/apps/ca.c:599-602 | A disk of that kind: two Valid certificates of one name, loaded because the attribute file says no |
| `Lifetime.StopLosesNames` | openssl/apps/lib/apps.c:1857-1878 | With no configured and yes in the attribute file, after a -valid stopped between those renames the next one gives a name two Valid rows and the attribute file says no |
| `Lifetime.MissingAttrLosesNames` | openssl/apps/lib/apps.c:1712-1722 | The second half of that: with no configured and the attribute file missing, a -valid puts a second Valid row of a name in the table and no in the attribute file |
| `Lifetime.OldAttrLocksTable` | openssl/apps/lib/apps.c:1868-1875 | When such a run fails at the attribute file and stops in its roll-back, the old yes stands beside the new table, which the next run refuses |
| `Lifetime.NoSerialNoBatch` | openssl/apps/ca.c:944-950 | Without a serial file that can be read no batch is committed |
| `Lifetime.RevokedForLife` | openssl/apps/ca.c:2218-2231 | What OCSP has once called Revoked on the table of one of the disks of a life with readable dates, OCSP and the CRL say with the same information on the table of every later one. While the index file is missing, that table is the set-aside copy, which neither program loads; when they load one is `Lifetime.LoadsExactly` |
| `Lifetime.RevokeReaches` | openssl/apps/ca.c:1311-1334 | After a successful -revoke in which the system has refused nothing, OCSP answers from the index file that the certificate is Revoked, with the time, reason and extension asked for |
| `Lifetime.LifeBehaves` | openssl/apps/ca.c:784-1334 | The disk states of whole invocations form a behaviour of the ledger, so its results hold of them |
| `Lifetime.Operate` | openssl/apps/ca.c:734-1334 | Invocations run one after the other on one disk, each with any outcome, lead such a life |
| `Session.RunCa` | openssl/apps/ca.c:734-1334 | One invocation, from unique_subject in the attribute file or the configuration and the load check over update, requests and commit to the revocation: every disk content it goes through or ends in is one where a run with the planned commits may stop. When the system refuses no file operation, outcome and files are exactly these: nothing happens to a table that does not load; otherwise the rows due are Expired, the batch is lost, declined or saved with its serial and certificates, and the revocation is refused or made |
| `Session.PlanSaves` | openssl/apps/ca.c:784-1334 | The tables of the planned commits are exactly those that the run saves, in order, with unique_subject as the disk has it |
| `Session.SerialInExactly` | openssl/apps/lib/apps.c:1500-1553 | The serial file is read if and only if it is there and its number has at most 35 octets |
| `Runs.EveryHistorySound` | openssl/apps/ca.c:737-1333 | Over any number of runs with readable dates, each possibly cut short, from any table that loads: every table ever saved passes the next run's load check and index construction, has distinct serials and, under unique_subject, at most one Valid row per name, and continues every earlier table (rows kept in place, types only move V to E or to R, a Revoked row frozen); plain serial columns stay plain. `Runs.RunSoundExactly` shows the condition on dates to be exact |
| `Runs.EveryTableGood` | openssl/apps/ca.c:737-1333 | The invariant behind it, table by table along such a history |
| `Runs.RunSound` | openssl/apps/ca.c:784-1333 | Every table that a single run with readable dates saves (after update, batch, revocation) is loadable and a continuation of the one it started from, and stays plain when that was |
| `Runs.RunSoundExactly` | openssl/apps/ca.c:784-1333 | That holds if and only if the dates are readable: every certificate the run adds, by request, -revoke or -valid, has a readable expiry, and a revocation it makes is in the years of UTCTime |
| `Runs.UnreadableLocksTable` | openssl/apps/ca.c:2134-2238 | A run that only revokes or adds one certificate saves a table that the next run refuses if and only if the revocation time is no UTCTime or a newly added expiry cannot be read |
| `Runs.UnreadableExpiryLocksTable` | openssl/apps/ca.c:2167-2206 | For one: -valid, at any time and on the empty table, of a certificate whose expiry is the empty text is accepted and saves a table that the next run refuses |
| `Runs.LockedStays` | openssl/apps/ca.c:737-772 | A table that is refused is never changed again: no later run saves anything |
| `Runs.RevokedForever` | openssl/apps/ca.c:2218-2231 | Once OCSP has answered Revoked for a serial, after every later run, dates staying readable, it gives the same answer and the CRL lists the serial with the same time, reason and extension |
| `Runs.LateRevocationLocksTable` | openssl/apps/ca.c:2599-2609 | From 2050 on an accepted revocation saves a table that the next run refuses to load |
| `Runs.LateRevocationAccepted` | openssl/apps/ca.c:2134-2238 | Such runs are accepted: on the empty table every -valid is, and every revocation with a valid argument, whatever its time |
| `Runs.CertifyAll` | openssl/apps/ca.c:971-1054 | The batch loop has that outcome on the database and the serial, for requests as certify sees them; a request whose signature does not match is passed over |
| `Runs.BatchNumbered` | openssl/apps/ca.c:1032-1054 | A batch only appends rows, numbered consecutively from the loaded serial, and the serial ends right behind the last |
| `Runs.BatchExactly` | openssl/apps/ca.c:971-1054 | A batch goes through if and only if no request is refused, unsigned or claimed by the table or, under unique_subject, by an earlier name; it then has exactly one new Valid row for each signed request, in order, numbered from the serial, with all six columns stated; one request that is not admitted loses the whole batch |
| `CaTable.RevokeKeeps` | openssl/apps/ca.c:2134-2238 | do_revoke keeps the index invariant and every row's history; a refusal changes no row that was there; add-valid appends exactly the certificate's row |
| `CaTable.RevokeExactlyOne` | openssl/apps/ca.c:2134-2238 | An accepted revocation leaves exactly one row with the serial, Revoked with the requested column, and no other row changed |
| `CaTable.RevokeExactly` | openssl/apps/ca.c:2134-2238 | do_revoke accepts if and only if the certificate's row under its name is there, not Revoked, and the request is a revocation with a valid argument, or the certificate is unclaimed and the request is -valid or has a valid argument; the table after acceptance and after each refusal is stated row by row |
| `CaTable.RevokeReadable` | openssl/apps/ca.c:2134-2238 | After do_revoke has accepted, -valid included, every row passes the load check if and only if a revocation time is a UTCTime and a newly added certificate has a readable expiry |
| `CaTable.CertifyKeeps` | openssl/apps/ca.c:1846-1969 | Issuing keeps the index invariant and every row and appends exactly one row, or none; the rows then pass the load check if and only if they did before and a certificate that was added has a readable expiry |
| `CaTable.CertifyExactly` | openssl/apps/ca.c:1846-1969 | Issuing gives 1 and one new Valid row with stated columns if and only if signed and unclaimed, 0 if and only if declined and unclaimed, and -1 without change otherwise |
| `CaTable.UpdateKeeps` | openssl/apps/ca.c:2307-2355 | Marking expired rows keeps the index invariant, the load check and every row's history |
| `CaTable.ExpireExactly` | openssl/apps/ca.c:2307-2355 | Row by row, exactly the Valid rows whose expiry is not after now become Expired, and the count is the number of their positions |
| `CaTable.UpdateTwice` | openssl/apps/ca.c:2307-2355 | Updating at t1 and again at a later t2 gives the table of one update at t2, and the counts add up |
| `Database.CaDb.CheckRows` | openssl/apps/ca.c:736-772 | The load loop refuses a table if and only if some row has a revocation column without being Revoked, one that cannot be read, an unreadable expiry, or a serial that is not an even number of hex digits behind at most one minus |
| `Database.CaDb.IndexIndex` | openssl/apps/lib/apps.c:1743-1766 | Both indexes are built, and building fails exactly on a repeated serial or, under unique_subject, a repeated name among Valid rows |
| `Database.CaDb.GetBySerial` | openssl/crypto/txt_db/txt_db.c:127-145 | The hash lookup returns the one row whose serial agrees after leading zeros, or none |
| `Database.CaDb.Insert` | openssl/crypto/txt_db/txt_db.c:234-277 | Insertion is refused exactly on a serial clash or a Valid-name clash and otherwise appends the row and keeps both indexes right |
| `Database.CaDb.DoRevoke` | openssl/apps/ca.c:2134-2238 | The method with its self-call has the outcome of `CaTable.RevokeExactly`, stated from the rows and the name index; its measure shows at most one self-call |
| `Database.CaDb.Issue` | openssl/apps/ca.c:1846-1969 | Clash checks through the stale name index, prompt, signature and insertion have the outcome of `CaTable.CertifyExactly` |
| `Database.CaDb.DoUpdateDb` | openssl/apps/ca.c:2307-2355 | -1 if and only if a Valid row has an unreadable expiry; otherwise exactly the Valid rows whose expiry is not after now become Expired, and the number of their positions is returned |
| `Database.CaDb.GetCertificateStatus` | openssl/apps/ca.c:2240-2305 | A status query shows the type of the row whose serial agrees with the padded upper-case text, and succeeds exactly for a known type |
| `Views.GenCrl` | openssl/apps/ca.c:1225-1246 | There is a CRL if and only if every Revoked row has a readable serial and revocation column; it lists exactly those rows, in table order, with number, time, reason and extension, and is version 2 if and only if an entry carries a reason |
| `Views.UnreadableStops` | openssl/apps/ca.c:1228-1244 | One unreadable Revoked row suffices for there to be no CRL |
| `Views.StoppedByUnreadable` | openssl/apps/ca.c:1228-1244 | Conversely, without a CRL there is an unreadable Revoked row |
| `Views.LoadedListable` | openssl/apps/ca.c:737-747 | A table that passes the load check has a CRL |
| `Agreement.CrlOcspAgreeExactly` | openssl/apps/ocsp.c:1144-1191 | On a table that loads, OCSP answers Revoked with given time, reason and extension exactly where the CRL lists the serial with the same, for all serials, if and only if every Revoked row is plain or has a plain Revoked row beside it with the same number and information |
| `Agreement.CrlOcspAgree` | openssl/apps/ocsp.c:1144-1191 | With plain serials the two views agree on every serial and its information |
| `Agreement.OcspThenCrl` | openssl/apps/ocsp.c:1144-1191 | On every table that loads, what OCSP calls Revoked the CRL lists with the same information |
| `Agreement.OcspSays` | openssl/apps/ocsp.c:1144-1191 | OCSP answers Revoked with given information if and only if a Revoked row with plain serial has that number and information |
| `Agreement.RevocationIsPublished` | openssl/apps/ca.c:2134-2238 | From request to relying party: after an accepted revocation OCSP answers Revoked for the serial with exactly the time, section 5.3.1 RFC 5280 reason and extension requested |
| `Agreement.OutcomePublished` | openssl/apps/ca.c:2134-2238 | The same from the outcome of do_revoke alone |
| `Agreement.CrlOnePerSerialExactly` | openssl/apps/ca.c:1225-1246 | No serial is listed twice in a CRL if and only if no two Revoked rows have columns that agree after leading zeros and cases are taken away |
| `Agreement.CrlOnePerSerial` | openssl/apps/ca.c:1225-1246 | With plain and distinct serials, as the program writes them, no serial is listed twice |
| `Agreement.ListedTwice` | openssl/apps/ca.c:754-771 | "0a" and "0A", both Revoked, load together, and the CRL lists number 10 twice |
| `Views.MakeOcspResponse` | openssl/apps/ocsp.c:1074-1192 | MALFORMED if and only if there are no ids; successful if and only if every digest is known and no id of a known issuer falls on a Revoked row whose time cannot be read; then the ids are answered in order, all but those of `Views.ResponseLists`, each with the status that rows and issuers give it |
| `Views.ResponseExactly` | openssl/apps/ocsp.c:1074-1192 | The same of the collected statuses, for every list of ids |
| `Views.ResponseLists` | openssl/apps/ocsp.c:1106-1192 | A successful response lists, in request order, one status for each id: GOOD exactly for a Valid row of a known issuer, UNKNOWN exactly for an unknown issuer or a serial without row, Revoked with given information exactly for a Revoked row that tells it; the ids left out are exactly those of a known issuer whose row is neither Valid nor Revoked |
| `Views.AnswersByRow` | openssl/apps/ocsp.c:1144-1191 | The answer for one serial, from the rows: each status exactly where it is due, none exactly for other types, and failure exactly for a Revoked row whose time cannot be read |
| `Views.DecideStatus` | openssl/apps/ocsp.c:1144-1191 | The status branch, including the row found by lookup_serial, gives that answer |
| `Agreement.FoundExactlyWhenPlain` | openssl/apps/ocsp.c:1231-1252 | OCSP reaches a row under the number the CRL lists for it if and only if the serial column has no lower-case digit and no zero octet behind a sign |
| `Serial.PlainExactly` | openssl/apps/lib/apps.c:1467-1477 | A column that passes the load check has the index key of its number's text if and only if it is plain |
| `Serial.KeyDetermines` | openssl/apps/lib/apps.c:1467-1477 | A column with the index key of a number's text stands for that number |
| `Serial.SameNumberExactly` | openssl/apps/ca.c:1235-1241 | Two columns that pass the load check stand for one number if and only if they agree after leading zeros, zero signs and cases are taken away |
| `Agreement.LowerCaseSerialDisagrees` | openssl/apps/ca.c:754-771 | A table with the serial "0a" loads; the CRL lists number 10 and OCSP calls it unknown |
| `Agreement.NegativeZeroDisagrees` | openssl/apps/ca.c:754-771 | A table with the serial "-00" loads; the CRL lists number 0 and OCSP calls it unknown |
| `Agreement.RevokedAnsweredGood` | openssl/apps/ca.c:754-771 | "0a" Revoked and "0A" Valid load together; the CRL lists number 10 and OCSP answers GOOD for it |
| `RevInfo.RevocationRoundTrip` | openssl/apps/ca.c:2567-2676 | unpack_revinfo inverts make_revocation_str for every type and argument, commas included, giving the reason code of section 5.3.1 of RFC 5280, when the time is a UTCTime; otherwise reading fails |
| `RevInfo.ReadableExactlyBefore2050` | openssl/apps/ca.c:2382-2464 | A revocation made at an instant is readable if and only if the year is one of UTCTime, 1950 to 2049 |
| `RevInfo.SplitJoin` | openssl/apps/ca.c:2584-2597 | Cutting at the first two commas recovers time, reason and argument, whatever the argument contains |
| `RevInfo.MakeRevocationStr` | openssl/apps/ca.c:2382-2464 | Refused exactly for an invalid argument; otherwise the buffer holds the column and its size is exactly the bytes written |
| `RevInfo.ArgExactly` | openssl/apps/ca.c:2382-2464 | An argument is valid if and only if it is one of the eight reason names in any case, a known object for a hold instruction, or a GeneralizedTime for a compromise |
| `RevInfo.StoredExactly` | openssl/apps/ca.c:2431-2462 | The text in the column for each type: the time, the time and the reason name, or the time, "holdInstruction", "keyTime" or "CAkeyTime", and the argument |
| `RevInfo.UnpackRevinfo` | openssl/apps/ca.c:2567-2676 | All five out-parameters, on success and on failure, are those of the specification; an unreadable time leaves an empty time behind |
| `RevInfo.UnpackExactly` | openssl/apps/ca.c:2567-2676 | For every column, split at its first two commas: what is read, name by name, with the codes of section 5.3.1 of RFC 5280, and every failure |
| `TimeText.FormatAccepted` | openssl/crypto/asn1/a_time.c:76-320 | The text of an instant is always a valid time, has no comma, and is accepted as a UTCTime if and only if the year is 1950 to 2049 |
| `TimeText.AcceptsExactly` | openssl/crypto/asn1/a_time.c:76-320 | A text is accepted as UTCTime or GeneralizedTime if and only if it shows an instant: digits in range, the day in its month, seconds or none, a fraction only in a GeneralizedTime with seconds, and a zone of at most 12 hours and 59 minutes at the end |
| `Serial.TextRoundTrip` | openssl/apps/ca.c:1823-1826 | Every stored serial passes the load check and converts back to its number |
| `Serial.TextsInjective` | openssl/apps/lib/apps.c:1467-1477 | The serial index tells two stored serials apart exactly when the numbers differ |
| `Serial.StatusFindsStored` | openssl/apps/ca.c:2251-2269 | A query typed as minimal hex, in any mix of cases, is padded to the stored text |
| `Serial.StemIsStoredText` | openssl/apps/ca.c:1091-1128 | For every number a serial file can hold, the file-name stem is the stored serial |
| `SerialFile.ReadNumber` | openssl/crypto/asn1/f_int.c:52-138 | The line loop reads exactly the specified number, never a negative one, or fails as specified |
| `SerialFile.ReadBackExactly` | openssl/apps/lib/apps.c:1500-1604 | What save_serial writes load_serial reads back if and only if the number has at most 35 octets; otherwise loading fails |
| `SerialFile.OneLineExactly` | openssl/crypto/asn1/f_int.c:52-138 | A single line is read as the number of its leading hex digits if these are even in number and at least two, and refused otherwise |
| `SerialFile.ContentBound` | openssl/crypto/asn1/f_int.c:16-50 | A number has at most k octets exactly when it is below the k-th power of 256 |
| `Serial.CertPath` | openssl/apps/ca.c:1091-1128 | The path is refused, with the buffer untouched, exactly when directory, name and terminator do not fit, also when the directory alone does not; otherwise it is directory, hex octets and ".pem" inside the buffer |
| `Policy.CheckPolicy` | openssl/apps/ca.c:1589-1681 | The nested loops succeed if and only if every rule names a known type, has the value "optional", "supplied" or "match", for the latter two some request entry has the type, and for "match" every such entry has an equal one in the CA name; the subject consists of exactly the request positions with the type of a rule, in the order of the rules and then of the request |
| `Policy.ApplyRule` | openssl/apps/ca.c:1600-1680 | One rule's loop, with the inner search over the CA name, succeeds exactly when its demand is met and appends all entries of its type |
| `Policy.RuleExactly` | openssl/apps/ca.c:1600-1671 | The demand of one rule, in the words of the configuration file |
| `Policy.FindInCa` | openssl/apps/ca.c:1637-1665 | The jump-back search finds an equal value in the CA name exactly when there is one |
| `Policy.EmailsGone` | openssl/apps/ca.c:1801-1808 | Deleting emails leaves exactly the other entries, in order, grouped into RDNs as before, and well numbered |
| `Policy.DeleteEntry` | openssl/crypto/x509/x509name.c:101-139 | Removal and the renumbering loop behind the hole give the specified name |
| `Policy.DeleteReduces` | openssl/crypto/x509/x509name.c:101-139 | Deleting one entry keeps every other entry and which of them share an RDN |
| `Policy.DeleteNumbered` | openssl/crypto/x509/x509name.c:101-139 | Deleting one entry keeps RDN numbers consecutive from zero |
| `Policy.RemoveEmail` | openssl/apps/ca.c:1801-1808 | The deleting loop, which steps back after each deletion, terminates with the repeated deletion |
| `Issue.DoBody` | openssl/apps/ca.c:1489-1986 | A request that the string checks or the policy refuse, or whose certificate cannot be built, leaves the table alone; any other has the outcome of `CaTable.CertifyExactly` for the certificate with the selected subject |
| `Issue.AcceptableExactly` | openssl/apps/ca.c:1551-1681 | Which requests these are, entry by entry and rule by rule, with the ASN.1 string types by number |
| `Issue.CertifyRequest` | openssl/apps/ca.c:1373-1429 | An unreadable request fails hard, one whose signature does not match is passed over, and any other is issued or refused as do_body does |
| `Issue.SubjectExactly` | openssl/apps/ca.c:1683-1689 | With -preserveDN the subject is the request's name, and without it the entries the policy picks |
| `Issue.SubjectWithoutEmail` | openssl/apps/ca.c:1789-1815 | Without email the subject is exactly the non-email part of the subject with email, RDN structure kept |
| `Commit.Disk.CommitBatch` | openssl/apps/ca.c:1083-1159 | At every step, whatever fails and wherever it stops, the index file (or its set-aside copy) holds the table with all of the batch or none, and never the batch before the serial file has moved past it; the attribute file is old, set aside or new. Success leaves table, serial, attributes and all certificates of the batch new; it fails only if the system has refused an operation |
| `Commit.Disk.SaveTable` | openssl/apps/ca.c:1329-1333 | At every step of saving a table the index file is the old table, set aside, or the new one, the attribute file is old, set aside or new, and the serial and certificate files are untouched; success leaves both new, and it fails only if the system has refused an operation |
| `Commit.Disk.RotateIndex` | openssl/apps/lib/apps.c:1815-1880 | At every step, roll-backs included, table and attribute file are old, set aside or new; success means both are new, failure that the system has refused a rename |
| `Commit.Disk.RotateSerial` | openssl/apps/lib/apps.c:1606-1648 | At every step the serial file is old, set aside or new; failure leaves it old or set aside and means that the system has refused a rename |
| `Commit.Disk.WriteBatch` | openssl/apps/ca.c:1083-1147 | Writing the new-suffix files and the certificates disturbs nothing else at any step, and no certificate disappears |
| `Ledger.SerialAlwaysAhead` | openssl/apps/ca.c:1083-1159 | However many commits are made and wherever each stops, the serial file (or its set-aside copy) is above every number certify has put in the index file |
| `Ledger.NumbersAlwaysFresh` | openssl/apps/ca.c:1083-1159 | So no number enters the index file twice through certify |
| `Ledger.ExposedExactlyBeforeRotation` | openssl/apps/ca.c:1097-1153 | At any moment of a commit no certificate on disk has a number that will be used again if and only if those that were there are below the serial and either the serial file has moved or none of the batch's certificates is on disk |
| `Ledger.ExposedExactlyByStop` | openssl/apps/ca.c:1083-1159 | Over any number of commits a certificate's number will be used again if and only if some commit stopped between writing it and moving the serial file and the serial file has not moved past it since |
| `Ledger.StoppedRunReissues` | openssl/apps/ca.c:1097-1153 | A run stopped after writing and before rotating leaves such a certificate, and the next run writes over it under the same number |
| `ShaCrypt.ShaCrypt` | openssl/apps/passwd.c:501-780 | There is an output if and only if the magic is "5" or "6", the settings are well formed, and password and salt are not empty. For "5" it is "$5$", settings, "$" and 43 characters that decode to 32 bytes worked out with SHA-256 alone, for "6" 86 characters for 64 bytes with SHA-512 alone, every digest input stated piece by piece; all in bounds, with the length guard never firing |
| `ShaCrypt.CryptExactly` | openssl/apps/passwd.c:501-780 | The same of the specification, for every password, magic and salt |
| `ShaCrypt.OneDigestOnly` | openssl/apps/passwd.c:540-547 | "5" does not depend on SHA-512, nor "6" on SHA-256 |
| `ShaCrypt.ComputeDigest` | openssl/apps/passwd.c:613-702 | Block feed, length-bit feed, P and S fills and round loop compute the recursive specification |
| `ShaCrypt.DigestExactly` | openssl/apps/passwd.c:613-702 | The digest after the SHA-crypt specification: the first input byte by byte, the fills, and the chain of rounds |
| `ShaCrypt.ReadSettings` | openssl/apps/passwd.c:552-578 | The parser returns the clamped rounds and truncated salt, and fails exactly on a round count without '$' |
| `ShaCrypt.ParseCounted` | openssl/apps/passwd.c:552-578 | "rounds=", any printed number, "$" and a salt ask for that number, as strtoul reads it, brought between 1000 and 999999999 |
| `ShaCrypt.ParsePlain` | openssl/apps/passwd.c:552-578 | Any other argument asks for 5000 rounds, with the salt cut to sixteen characters |
| `ShaCrypt.ParseUncounted` | openssl/apps/passwd.c:558-571 | A number without "$" behind it is refused |
| `ShaCrypt.SettingsRoundTrip` | openssl/apps/passwd.c:552-607 | Whatever the argument, the settings part of the output asks for the same settings |
| `ShaCrypt.Rehash` | openssl/apps/passwd.c:552-611 | Hashing again with the settings part of an output as salt gives the same output, clamped rounds, long salts and '$' in salts included |
| `ShaCrypt.RehashOutput` | openssl/apps/passwd.c:552-611 | Reading the settings out of an output and hashing again with them gives the same output |
| `ShaCrypt.RehashWhole` | openssl/apps/passwd.c:577-578 | Hashing again with the whole output after the magic gives the same output if and only if the salt has sixteen characters |
| `ShaCrypt.HeaderFits` | openssl/apps/passwd.c:609-611 | The header never exceeds the length the guard compares with |
| `DigestFeed.FeedCyclic` | openssl/apps/passwd.c:629-634 | The block loop feeds byte i of the digest taken modulo its length |
| `DigestFeed.FillCyclic` | openssl/apps/passwd.c:660-662 | The copying loop fills the buffer with the cyclic repetition and stays inside it |
| `DigestFeed.LengthBitsAreBits` | openssl/apps/passwd.c:636-643 | The shifting loop feeds one piece per bit of the length's binary expansion, lowest first |
| `DigestFeed.RunRounds` | openssl/apps/passwd.c:681-702 | The round loop goes through a chain of digests, each of the pieces that the round number gives modulo 2, 3 and 7, in that order |
| `DigestFeed.RoundsExactly` | openssl/apps/passwd.c:681-702 | The same chain for the iterated round function |
| `Crypt64.Sha512Decodes` | openssl/apps/passwd.c:739-762 | Every byte of every 64-byte digest is recovered from its text |
| `Crypt64.Sha256Decodes` | openssl/apps/passwd.c:726-738 | Every byte of every 32-byte digest is recovered from its text |
| `Crypt64.Md5Decodes` | openssl/apps/passwd.c:455-480 | Every byte of every 16-byte digest is recovered from its text |
| `Crypt64.B64From24Bit` | openssl/apps/passwd.c:715-723 | The macro writes the low 6-bit groups of the word, lowest first, and nothing else |
| `Crypt64.Enc6At` | openssl/apps/passwd.c:715-723 | Character i stands for the i-th 6-bit group from the lowest |
| `Crypt64.CovTable` | openssl/apps/passwd.c:25-35 | The 64 characters are ".", "/", the digits, the upper-case and the lower-case letters, in that order |
| `Crypt64.EncodeDigest` | openssl/apps/passwd.c:725-765 | The group sequence writes exactly the encoded digest |
| `Crypt64.TextLengths` | openssl/apps/passwd.c:515 | The three texts have 43, 86 and 22 characters |
| `Md5Crypt.Md5Crypt` | openssl/apps/passwd.c:322-494 | There is an output if and only if the magic has at most four characters: marker, eight characters of salt, "$" and 22 characters that decode to a digest of the stated input and a thousand stated rounds; the header guard never fires and text and terminator fit |
| `Md5Crypt.CryptExactly` | openssl/apps/passwd.c:322-494 | The same of the specification, for every password, magic and salt |
| `Md5Crypt.FourExpressions` | openssl/apps/passwd.c:471-476 | The four shift-and-mask expressions are b64_from_24bit of the three bytes |
| `Md5Crypt.EncodeMd5` | openssl/apps/passwd.c:449-485 | Permutation and expressions write the same text as the group encoding of the unpermuted digest |
| `Md5Crypt.Rehash` | openssl/apps/passwd.c:361-371 | Reading the salt out of an output, up to its last '$', and hashing again with it gives the same output, also when the salt contains '$' |
| `Md5Crypt.RehashWhole` | openssl/apps/passwd.c:361-371 | Hashing again with the whole output after the marker gives the same output if and only if the salt has eight characters |
| `Decimal.StrToUlPrinted` | openssl/apps/passwd.c:555-556 | strtoul reads a printed number back and stops behind its last digit |
| `Decimal.StrToUlExactly` | openssl/apps/passwd.c:555-556 | strtoul on every printed number: the largest one on overflow, negative ones counted from 2^64 down |
| `Decimal.StrToLPrinted` | openssl/apps/cmp.c:2141-2142 | strtol reads every printed 64-bit number back, negative ones included |
| `Decimal.StrToLExactly` | openssl/apps/cmp.c:2141-2142 | strtol on every printed number: the nearest it has |
| `CStr.StrLcat` | openssl/crypto/o_str.c:87-93 | Behind the terminator inside the size it appends what fits and terminates; without a terminator inside the size it writes nothing; it returns the wanted length |
| `CmsSigners.CmsSign` | openssl/apps/cms.c:653-1207 | From option sequence to signatures: accepted if and only if the arguments are at least one group written out one after the other, a signer on its own, with a key behind it, or with a key before it and not behind a signer on its own, each with its -keyopt arguments; and signed with the pairs of those groups |
| `CmsSigners.GroupsExactly` | openssl/apps/cms.c:653-847 | The same of the group grammar |
| `CmsSigners.MachineReadsGroups` | openssl/apps/cms.c:653-748 | From any pending state the option machine reads the rest of the command line as the group grammar does, so each -keyopt goes to the pair pending when it was given |
| `CmsSigners.PairsAccountForArguments` | openssl/apps/cms.c:823-847 | The signers are the -signer arguments in order, each -inkey is the key of exactly one pair in order, other pairs use the signer's file, and no -keyopt is lost or reordered |
| `CmsSigners.Args.OnSigner` | openssl/apps/cms.c:653-671 | The case does one step of the machine on the stacks and the parameter list |
| `CmsSigners.Args.OnInKey` | openssl/apps/cms.c:675-695 | The case does one step of the machine, or refuses a second key without signer |
| `CmsSigners.Args.OnKeyOpt` | openssl/apps/cms.c:716-748 | The case does one step of the machine, extending the last list node or adding one, or refuses an option before any signer |
| `CmsSigners.Args.Sign` | openssl/apps/cms.c:1175-1207 | Each signer gets its key and the parameters of the first list node with its number |
| `CmpConf.PrevItemEnumeratesTokens` | openssl/apps/cmp.c:2648-2679 | Repeated calls enumerate exactly the tokens from the right, with one empty name first when the list ends in a separator |
| `CmpConf.PrevItem` | openssl/apps/cmp.c:2648-2679 | One call copies the item ending there, cut to 40 characters, and moves strictly left past the separators before it |
| `CmpConf.ConfGetString` | openssl/apps/cmp.c:2682-2693 | The value found is that of the rightmost section defining the name, after the empty section when the list ends in a separator |
| `CmpConf.LookedUpFromRight` | openssl/apps/cmp.c:2648-2693 | For names without commas and blanks, with any of these between them, the value is that of the rightmost name, cut to 40 characters, that has one |
| `CmpConf.NotLookedUp` | openssl/apps/cmp.c:2648-2693 | And there is none when no name has one |
| `CmpConf.HandleGeninfo` | openssl/apps/cmp.c:2112-2203 | The loop accepts a text if and only if it is a list of items, with or without a comma at the end, each blanks, a known object, a colon, "int:" or "str:" in any case, and a number to its last digit or a string without comma; and it gives their items |
| `CmpConf.GeninfoExactly` | openssl/apps/cmp.c:2112-2203 | The same of the recursive parser |
| `CmpConf.GeninfoRoundTrip` | openssl/apps/cmp.c:2112-2203 | Every printed non-empty list of OID:int and OID:str items is recovered |
| `Enc.DecryptInvertsEncrypt` | openssl/apps/enc.c:483-598 | With the same options and invertible filters and cipher, decryption finds the salt that encryption used and recovers every message |
| `Enc.CopyLoop` | openssl/apps/enc.c:780-803 | For a streamable cipher the result is that of the whole message whatever the buffer size and however much each read returns; an unstreamable one fails exactly when the first read does not return the whole input |
| `Enc.Encrypt` | openssl/apps/enc.c:548-598 | For every buffer size and all lengths of the reads the file is the encrypted message, with "Salted__" and the salt before it when the salt is random, through zstd, brotli and zlib in that order as asked for, or else base64; it fails when the cipher mode is not streamable and the first read does not return the whole input |
| `Enc.EncryptedExactly` | openssl/apps/enc.c:483-598 | The same of the specified file |
| `Enc.Decrypt` | openssl/apps/enc.c:574-598 | Header reading and copy loop give the specified plaintext or the specified failure for every file, buffer size and lengths of the reads, streamable or not |
| `Enc.SaltFoundExactly` | openssl/apps/enc.c:574-598 | A stream is read as salt and rest if and only if it is "Salted__", the salt and the rest |
| `Enc.RoundTrip` | openssl/apps/enc.c:548-803 | Encrypting and then decrypting with any two buffer sizes and lengths of the reads gives the message back, for an unstreamable mode exactly when the encrypted body comes with the first read |
| `Enc.ChainInverts` | openssl/apps/enc.c:483-545 | A chain of invertible filters, pushed in the same order for writing and reading, inverts itself |
| `Enc.SetHex` | openssl/apps/enc.c:849-877 | Fails exactly on a non-hex digit among those used; excess is ignored and a short argument zero-padded on the right |
| `Enc.HexRoundTrip` | openssl/apps/enc.c:745-768 | Printed bytes are read back for every size, zero-padded or cut |
| `Duplex.Conserved` | benchmark/openssl-bench/bench.cc:248-317 | Over any interleaving of writes, transfers and reads on both ends, consumed plus readable plus pending bytes are what the peer wrote, in order |
| `Duplex.RunAll` | benchmark/openssl-bench/bench.cc:248-317 | The connection objects go through exactly the states of that channel, and no stale read BIO is ever used |
| `Duplex.Conn.TransferTo` | benchmark/openssl-bench/bench.cc:248-271 | Chunk by chunk, everything pending arrives behind what the peer has not read yet, and the peer's BIO is fresh again |
| `Duplex.Conn.DropReadBytes` | benchmark/openssl-bench/bench.cc:273-282 | The vector keeps exactly what the BIO has not given out |

## Left out

- Option tables, prompts, help and diagnostics of the tools, except the option sequences of `cms.c`: user interface.
- X.509, ASN.1, EVP, BN and OCSP library code, signatures, and the instant a time text denotes: foreign code, taken as parameters. The syntax of ASN.1 times is modelled.
- `-rand_serial`, `-create_serial`, `-rcid`, `-msie_hack`, `-subj`, `-spkac` parsing and extensions: configuration that changes inputs of the modelled steps, not the steps.
- `TXT_DB_read` and `TXT_DB_write`: the text format of the index file; a table is saved and loaded as its rows. A row keeps the first character of its type column only.
- `X509_CRL_sort`, CRL number files, CRL extensions and the CRL signature: the CRL is the list of entries in table order.
- Allocation failure and freeing, except the zero-size allocation that makes `shacrypt` refuse an empty password or salt.
- EBCDIC and other platform branches; numbers read by strtoul and strtol have 64 bits.
- Runs.EveryHistorySound: takes an interrupted run to leave the old contents or one of the contents it saves; the moments in between, with a file set aside, are in `Lifetime.EveryLifeSound`.
- Session.RunCa: the configured unique_subject is the same in every invocation; an attribute file holds yes, no or nothing readable.
- CmsSigners.CmsSign: the linked list of key parameters is a sequence reassigned by the methods, so node sharing is not modelled; loading of certificates and keys is left out.
- CmpConf.HandleGeninfo: items are cut out as slices instead of by writing terminators into the argument.
- Policy.RemoveEmail: works on a sequence of entries that is reassigned, not on a shared stack.
- Enc.CopyLoop: a read returns at least one byte until the input ends; errors while reading or writing are left out.
- Enc.Encrypt: filters are functions on whole streams, so their own buffering is left out; a failed run has no output, while the source leaves a header behind. Key and IV given as hex, `-P` and key derivation are parameters or left out.
- SerialFile.ReadNumber: lines are shorter than the 1024-byte buffer.
- Duplex.RunAll: the TLS engine is any producer and consumer of bytes; handshake and record protection are left out.
- The random salt, `crypt` and the password sources of `passwd.c`; the transport and context setup of `cmp.c`; encryption and receipts in `cms.c`; the responder's network loop in `ocsp.c`.
- All other tools, the cryptographic library and the analysis scripts: thin wrappers, or short claims that would only add easy members.
