# The certificate authority of OpenSSL's apps, modelled and proved

This project models the certificate-authority commands of OpenSSL 1.0.1e in
Dafny and proves what they promise: the database that `ca` keeps, the files it
commits it to, the CRL and the OCSP responder that read it, and seven
self-contained algorithms from the same directory.

**The database.** `CaModel` describes it as a value: rows of six text fields, an
index by serial number and, under `unique_subject`, an index by name; the steps
issue, revoke, expire and reload; and runs of such steps. `CaDatabase` is the
same as C has it: row objects overwritten in place, index-building loops, a
recursive `do_revoke`. Each of its methods is proved to carry out its step.
An index entry is the position of a row in the stack of rows, which identifies
the row because rows are only ever appended. `Serial`, `Times` and `RevInfo`
model the text the rows are made of: hexadecimal serials, ASN.1 times with the
format checks of the library, and the revocation strings. `Expiry` is the text
comparison by which `do_updatedb` expires rows.

**The files.** `DiskModel` has the system calls on a map of files. A plan says
which calls succeed, so a statement for every plan covers every pattern of
failures, and a log keeps every state passed through, so a statement about the
log covers a crash at any point. A rename fails with ENOENT exactly when its
source is missing. `FileSystem` is the imperative code of `save_*` and
`rotate_*`; `Commit` puts loading, changing, saving and rotating together into
runs, and runs into histories.

**The readers.** `Status` has the CRL loop and the OCSP responder, and proves
exactly when they agree.

**The algorithms.** `Policy` is the policy matcher of `do_body`, `SubjectName`
is `parse_name`, `ArgWords` is `chopup_args`, `NextProtos` is
`next_protos_parse`, `Extensions` is `copy_extensions`, `CmsSigners` is the
`-signer`/`-inkey` machine of `cms`, and `LockTrace` is `lock_dbg_cb`.

Library calls appear as small functions with the behaviour their source has:
lookup and insertion of TXT_DB, `X509_NAME_get_index_by_OBJ`, `BN_bn2hex`, the
ASN.1 time checks. What cannot be seen is a parameter: `OBJ_txt2obj` is
`oidOf`, the clock is an `Instant`, the operator's answers are flags of a
request. A null field of a row is the empty text it is written as.

Seven properties one might expect are false of the code. Each is stated as the
exact condition under which it holds, with an input on which it fails.

- The serial index is numeric only on uppercase digits: a row is found by its
  number exactly when its digits are uppercase and unsigned
  (`CaModel.FoundByNumberIff`, `CaModel.LowercaseIsLost`). The loader accepts
  lowercase digits, and on them the CRL and the OCSP responder disagree
  (`Status.CrlAgreesWithResponder`, `Status.LowercaseDisagrees`).
- `do_updatedb` reads every expiry text as YYMMDDHHMMSS (`Expiry.ExpiryReads`).
  That is right on UTCTimes at zone zero that are not cut short by a Z after the
  minutes (`Expiry.UtcAlwaysRightIff`); on GeneralizedTimes it is wrong while
  the present lies between two dates, and hardly any date is always judged rightly
  (`Expiry.GeneralizedExpiry`, `Expiry.GeneralizedAlwaysRightIff`,
  `Expiry.GeneralizedExpiryFails`).
- The responder passes on a revocation time without zone, which loads, as a
  GeneralizedTime that is not well formed (`Status.SameInstant`,
  `Status.ZonelessTimeIsAnswered`).
- A revocation string written from 2050 on cannot be read back
  (`RevInfo.RoundTrip`, `RevInfo.NotReadBackFrom2050`).
- Revoking an unknown certificate with a malformed expiry date leaves a database
  that does not load (`CaModel.RevokeReloadsIff`, `CaModel.RevokeSpoilsDatabase`).
- A name whose only valid row has just expired cannot be issued again before the
  database is reloaded (`CaModel.BlockedUntilReloadIff`,
  `CaModel.StaleNameExample`).
- A crash can set the attribute file aside, after which the index may not load
  (`Commit.LoadedIsGood`, `Commit.LostAttributesExample`); the serial numbers and
  the rows stay safe all the same (`Commit.EveryHistorySound`,
  `Commit.EveryHistorySurvives`).

## Model

| member | source | states |
|---|---|---|
| Serial.KeyIsNumeric | openssl-1.0.1e/apps/apps.c:1554-1570 | two uppercase unsigned hex serials have the same index key exactly when they denote the same number |
| Serial.KeyIsSound | openssl-1.0.1e/apps/apps.c:1563-1570 | in any mix of cases equal keys still mean equal numbers; a text shares the key of an uppercase one for the same number exactly when it is uppercase too |
| Serial.NumberReachesKeyIff | openssl-1.0.1e/apps/apps.c:1554-1570 | looking a number up reaches the key of a hex text for it exactly when the text is uppercase |
| Serial.IndexSerialCmp | openssl-1.0.1e/apps/apps.c:1563-1570 | the comparison is zero exactly when the numbers are equal (uppercase unsigned hex) |
| Serial.IndexSerialHash | openssl-1.0.1e/apps/apps.c:1554-1561 | over any string hash, serials of equal value hash alike |
| Serial.TextRoundTrip | openssl-1.0.1e/apps/ca.c:1953-1956 | a printed number is uppercase, of even length at least two, without a leading zero byte, and reads back as itself; zero is printed as `00` |
| Serial.TextKeyInjective | openssl-1.0.1e/apps/ocsp.c:1158-1175 | different numbers are looked up under different keys |
| Serial.NormalizeSerial | openssl-1.0.1e/apps/ca.c:2542-2566 | the buffer ends up holding the given digits, padded to an even count and raised to uppercase, NUL-terminated and in bounds |
| Serial.NormalizedIsNumeric | openssl-1.0.1e/apps/ca.c:2549-2566 | the normalised text is uppercase hex of even length for the same number |
| Serial.DigitTable | openssl-1.0.1e/apps/ca.c:928-939 | what the sixteen digits mean, in either case |
| Serial.SignedNumberOf | openssl-1.0.1e/apps/ca.c:1437-1457 | digits are read in full as a number, and with a sign as its negative |
| Times.UtcTimeNamesAnInstant | openssl-1.0.1e/crypto/asn1/a_utctm.c:115-165 | every 13-character UTCTime the format check accepts is the printed form of one valid instant of 1950 to 2049 |
| Times.WrittenIsUtc | openssl-1.0.1e/crypto/asn1/a_utctm.c:115-165 | the digits of an accepted UTCTime of any shape are a valid date of 1950 to 2049 |
| Times.ZoneInRange | openssl-1.0.1e/crypto/asn1/a_gentm.c:118-183 | a time of either kind that passes its check is less than 13 hours from UTC |
| Times.UtcTimeOkIff | openssl-1.0.1e/crypto/asn1/a_utctm.c:115-165 | the check accepts exactly YYMMDDHHMM with a zone, and the same with seconds, where the zone may be missing |
| Times.GeneralizedTimeOkIff | openssl-1.0.1e/crypto/asn1/a_gentm.c:118-183 | the check accepts exactly CCYYMMDDHHMM, perhaps with seconds and a fraction, always with a zone |
| Times.UtcTextIsUtcTime | openssl-1.0.1e/crypto/asn1/a_utctm.c:192-239 | what is printed for an instant passes the UTCTime check |
| Times.GeneralizedTextIsGeneralizedTime | openssl-1.0.1e/crypto/asn1/a_gentm.c:118-183 | the 15-character form passes the GeneralizedTime check |
| Times.ClockTextKinds | openssl-1.0.1e/crypto/asn1/a_time.c:105-126 | the text of the clock always passes the loader and is a UTCTime exactly for the years 1950 to 2049 |
| Expiry.ExpiryReads | openssl-1.0.1e/apps/ca.c:2635-2673 | on every expiry text that loads, of either kind and shape, the two-flag comparison is chronological about the date it takes the text for |
| Expiry.ExpiryIsRightIff | openssl-1.0.1e/apps/ca.c:2635-2673 | it is right about every expiry text that loads exactly unless the present lies between the date the text says, zone and fraction included, and the one it is taken for |
| Expiry.ExpiryIsChronological | openssl-1.0.1e/apps/ca.c:2635-2673 | on UTCTimes at zone zero that are not cut short by a Z after the minutes it is chronological order under the year-50 pivot |
| Expiry.UtcAlwaysRightIff | openssl-1.0.1e/apps/ca.c:2650-2673 | of the UTCTimes that load, it is right at every present time about exactly those at zone zero that are not cut short by a Z after the minutes, and about one more date |
| Expiry.GeneralizedExpiry | openssl-1.0.1e/apps/ca.c:2650-2673 | on printed GeneralizedTimes: what the digits are taken for decides; up to 2020 rows are never marked too early, from 2021 on never too late, and the exact condition for being right |
| Expiry.GeneralizedAlwaysRightIff | openssl-1.0.1e/apps/ca.c:2650-2673 | of all the GeneralizedTimes that load, whatever their zone and fraction, it is right at every present time about exactly those that say the years 4913 to 4999 and those that have come from the first second of 2021 on |
| Expiry.PrintedAlwaysRightIff | openssl-1.0.1e/apps/ca.c:2650-2673 | of the printed ones, about exactly those of the years 4913 to 4999 and the first second of 2021 |
| Expiry.GeneralizedExpiryFails | openssl-1.0.1e/apps/ca.c:2650-2673 | dates that are misjudged: 2010 is not expired in 2013, 2150 is in 2022, and 9999 is at any time from 2000 on |
| RevInfo.AcceptedArguments | openssl-1.0.1e/apps/ca.c:2722-2776 | a revocation string is made exactly for reason names in any case, parsable objects and well-formed GeneralizedTimes |
| RevInfo.RoundTrip | openssl-1.0.1e/apps/ca.c:2715-2802 | unpacking a printed revocation string gives back the time, the RFC 5280 reason code, and the hold object or compromise time; it succeeds exactly while the clock prints a UTCTime |
| RevInfo.RevocationStringIs | openssl-1.0.1e/apps/ca.c:2715-2802 | the string is the time, and after commas the name of the reason and its argument |
| RevInfo.UnpackFieldsIff | openssl-1.0.1e/apps/ca.c:2905-3010 | exactly which times, reasons and arguments are accepted, in any case of letters, and what is delivered for each |
| RevInfo.NotReadBackFrom2050 | openssl-1.0.1e/apps/ca.c:2715-2802 | the string of the first second of 2050 is made and then rejected |
| RevInfo.ReasonIsUnique | openssl-1.0.1e/apps/ca.c:2689-2704 | an argument names at most one reason code |
| RevInfo.HoldExcludesInvalidity | openssl-1.0.1e/apps/ca.c:2952-2996 | a hold object and an invalidity date are never both delivered, and neither without a reason |
| RevInfo.RevocationFields | openssl-1.0.1e/apps/ca.c:2722-2776 | the switch over the revocation type, its rejections included |
| RevInfo.MakeRevocationStr | openssl-1.0.1e/apps/ca.c:2778-2802 | null exactly for rejected arguments; otherwise the allocated buffer is filled to its last byte and nothing is truncated |
| RevInfo.StrLCpy | openssl-1.0.1e/crypto/buffer/buf_str.c:100-111 | the longest fitting prefix is copied and terminated; what lies before stays |
| RevInfo.StrLCat | openssl-1.0.1e/crypto/buffer/buf_str.c:113-119 | the longest fitting prefix is appended to the string already in the buffer |
| RevInfo.CutAtComma | openssl-1.0.1e/apps/ca.c:2915-2931 | the text is cut in place at its first comma; head and remainder are the parts around it |
| RevInfo.UnpackRevinfo | openssl-1.0.1e/apps/ca.c:2905-3010 | cutting a copy in place computes exactly the specified decoding, for every string |
| CaModel.LoadCorrect | openssl-1.0.1e/apps/ca.c:898-942 | a database loads exactly when every row passes the checks and no two rows clash in serial or, under unique_subject, two valid rows in name; the indexes are then complete |
| CaModel.SerialOkIff | openssl-1.0.1e/apps/ca.c:919-939 | the loader accepts a serial number exactly if it is one or more whole bytes in hex, with a sign or without |
| CaModel.LoaderAcceptsIff | openssl-1.0.1e/apps/ca.c:898-942 | the loader accepts a row exactly if a revoked one has a revocation that can be read and any other has none, the expiry is a UTCTime or GeneralizedTime, and the serial is whole bytes |
| CaModel.SerialIndexCorrect | openssl-1.0.1e/crypto/txt_db/txt_db.c:217-258 | the serial index is built exactly when no two keys coincide, and maps each key to its row |
| CaModel.NameIndexCorrect | openssl-1.0.1e/crypto/txt_db/txt_db.c:217-258 | the name index is built exactly when no two valid rows share a name, and holds valid rows only |
| CaModel.InsertKeepsIndexes | openssl-1.0.1e/crypto/txt_db/txt_db.c:303-349 | an insertion that is not refused leaves both indexes in order |
| CaModel.RevokeOutcome | openssl-1.0.1e/apps/ca.c:2411-2528 | the recursion of do_revoke amounts to: enter the row if it is missing and can be entered, then mark that one row if the name fits, it is not revoked and the arguments are accepted; and it says exactly when it succeeds |
| CaModel.RevokedRowIs | openssl-1.0.1e/apps/ca.c:2438-2518 | after success the row under the number is type R, with the whole revocation string and the certificate's name, and otherwise as it was or as the certificate says |
| CaModel.RevokedAsAsked | openssl-1.0.1e/apps/ca.c:2438-2518 | before 2050 the CRL entry made for that row has the time, the reason asked for, and the hold object or compromise time |
| CaModel.RevokeTouchesOneSerial | openssl-1.0.1e/apps/ca.c:2438-2518 | at most one row is added and rows with another serial are untouched |
| CaModel.RevokeTwice | openssl-1.0.1e/apps/ca.c:2492-2497 | a second revocation is refused and changes nothing |
| CaModel.RevokeReloadsIff | openssl-1.0.1e/apps/ca.c:2438-2518 | after do_revoke the database loads again exactly if a certificate that had to be entered has a well-formed expiry date and a row that was marked was marked before 2050 |
| CaModel.RevokeSpoilsDatabase | openssl-1.0.1e/apps/ca.c:2438-2518 | a successful revocation of an unknown certificate after which the database does not load |
| CaModel.IssueReloadsIff | openssl-1.0.1e/apps/ca.c:2176-2219 | after issuing, the database loads again exactly if the new expiry date passes the loader |
| CaModel.IssueAddsRow | openssl-1.0.1e/apps/ca.c:2176-2219 | issuing adds one row: type V, the certificate's expiry, number and name, no revocation, file unknown |
| CaModel.IssuedThenExpired | openssl-1.0.1e/apps/ca.c:2643-2679 | the row issued is later marked expired exactly when the certificate's expiry text is due |
| CaModel.RunReloads | openssl-1.0.1e/apps/ca.c:898-942 | after any sequence of issuing, revoking, expiring and reloading, the rows pass all checks of the loader again |
| CaModel.RunKeepsRowsSound | openssl-1.0.1e/apps/ca.c:898-942 | over any run every row says what the loader demands, spelled out |
| CaModel.RunNeverClashes | openssl-1.0.1e/apps/apps.c:1875-1897 | over any run, refused steps included, serials stay distinct and under unique_subject so do the names of valid rows |
| CaModel.RunEvolves | openssl-1.0.1e/apps/ca.c:2643-2679 | over any run rows are never removed and change only from V to E or from anything but R to R |
| CaModel.RevokedIsFinal | openssl-1.0.1e/apps/ca.c:2492-2512 | a revoked row is never touched again and keeps its serial taken |
| CaModel.IssueRestsOnInsert | openssl-1.0.1e/apps/ca.c:1963-1974 | the name check before signing never objects, since the name is not yet filled in; issuing succeeds exactly when the insertion does, and then no valid row had the name |
| CaModel.IssueOnLoaded | openssl-1.0.1e/apps/apps.c:1875-1897 | on a database just loaded, issuing succeeds exactly when the number is free and no valid row has the name |
| CaModel.StaleNameBlocksUntilReload | openssl-1.0.1e/apps/ca.c:958-988 | in the run that updates the database, issuing succeeds exactly when the number is free and no row that was valid on loading has the name; after reloading, exactly when no row that is still valid has it |
| CaModel.BlockedUntilReloadIff | openssl-1.0.1e/apps/ca.c:958-988 | a free number under a name is refused now and accepted after reloading exactly when a valid row of that name has just been marked expired |
| CaModel.StaleNameExample | openssl-1.0.1e/apps/ca.c:958-988 | a database and a certificate for which that happens |
| CaModel.ExpireReads | openssl-1.0.1e/apps/ca.c:2643-2679 | a row is marked E exactly when it is V and the date its text is taken for has come; nothing else in it changes |
| CaModel.ExpireIsRightIff | openssl-1.0.1e/apps/ca.c:2643-2679 | a row is marked exactly when it is V and its expiry has come, unless it is V and the present lies between the two dates |
| CaModel.ExpireIsChronological | openssl-1.0.1e/apps/ca.c:2643-2679 | a row with a UTCTime at zone zero that is not cut short by a Z after the minutes is marked E exactly when it is V and its instant has come |
| CaModel.ExpireTwice | openssl-1.0.1e/apps/ca.c:2643-2679 | a second pass at the same time changes nothing |
| CaModel.LookupIsNumeric | openssl-1.0.1e/crypto/txt_db/txt_db.c:196-215 | over any indexed rows, a lookup by uppercase text finds a row exactly when that row shows the number in uppercase digits |
| CaModel.FoundByNumberIff | openssl-1.0.1e/crypto/txt_db/txt_db.c:196-215 | a row that loads is found by its number exactly when its digits are uppercase and unsigned |
| CaModel.LowercaseIsLost | openssl-1.0.1e/apps/ca.c:928-939 | a database that loads with the number 10 in two rows, of which one is found, and one that loads with number 10 and does not find it |
| CaModel.RunKeepsNumbered | openssl-1.0.1e/apps/ca.c:1953-1956 | rows keep uppercase unsigned serials over any run |
| CaDatabase.CaDb.CheckRows | openssl-1.0.1e/apps/ca.c:898-942 | reports the first row the loader rejects, or none exactly when all are accepted |
| CaDatabase.CaDb.CreateSerialIndex | openssl-1.0.1e/crypto/txt_db/txt_db.c:217-258 | the loop builds exactly the specified serial index or finds the clash |
| CaDatabase.CaDb.CreateNameIndex | openssl-1.0.1e/crypto/txt_db/txt_db.c:217-258 | the loop builds exactly the specified name index over qualifying rows or finds the clash |
| CaDatabase.CaDb.IndexIndex | openssl-1.0.1e/apps/apps.c:1875-1897 | succeeds exactly without clashes and then establishes the database invariant |
| CaDatabase.CaDb.InsertRow | openssl-1.0.1e/crypto/txt_db/txt_db.c:303-349 | appends the row object and indexes it, or changes nothing on a clash |
| CaDatabase.CaDb.IssueCert | openssl-1.0.1e/apps/ca.c:1953-2014 | returns -1 on a clash, 0 when signing is declined, and 1 exactly when the specified row is entered |
| CaDatabase.CaDb.RevokeCert | openssl-1.0.1e/apps/ca.c:2411-2528 | the recursive method ends, and leaves rows, indexes and result as specified |
| CaDatabase.CaDb.UpdateDb | openssl-1.0.1e/apps/ca.c:2617-2687 | the row objects end up expired as specified, the indexes stay, and the count is the number of rows that changed |
| CaDatabase.CaDb.GetCertificateStatus | openssl-1.0.1e/apps/ca.c:2529-2615 | whatever the case and number of digits given, the type reported is that of the row that shows the number in uppercase digits, and none is reported exactly when there is none |
| Status.MakeCrl | openssl-1.0.1e/apps/ca.c:1437-1457 | the loop yields the specified entries, fails on a malformed revocation string, and asks for version 2 exactly when an entry has a reason |
| Status.CrlListsRevokedRows | openssl-1.0.1e/apps/ca.c:1437-1457 | on accepted rows the CRL is made and lists exactly the revoked rows |
| Status.CrlListsEachRow | openssl-1.0.1e/apps/ca.c:1437-1457 | the CRL names a number exactly as often as there are revoked rows for it |
| Status.CrlNamesOnce | openssl-1.0.1e/apps/ca.c:1437-1457 | a number whose rows have uppercase digits is named at most once |
| Status.MakeOcspResponse | openssl-1.0.1e/apps/ocsp.c:1053-1156 | malformed for no ids, an internal error when some digest is unknown, otherwise the specified answers in order |
| Status.AnswerIff | openssl-1.0.1e/apps/ocsp.c:1097-1140 | good exactly for one of ours with a valid row, unknown exactly for one not ours or without a row, revoked exactly for one of ours with a revoked row whose time can be read; each answer names its id |
| Status.AnswersInOrder | openssl-1.0.1e/apps/ocsp.c:1085-1141 | the response has exactly the ids with an answer, in the order of the request |
| Status.LookupSerialRow | openssl-1.0.1e/apps/ocsp.c:1158-1175 | the row object found is the one the serial index holds for the number |
| Status.CrlAgreesWithResponder | openssl-1.0.1e/apps/ocsp.c:1078-1141 | over every database that loads: what the responder calls revoked is on the CRL with the same reason and hold or invalidity data and at the same date, time and zone, in a well-formed GeneralizedTime exactly unless the time has no zone; the two agree on a number exactly if, when some revoked row has it, one in uppercase digits has; good means a valid row and unknown means no row with the number in uppercase digits |
| Status.LowercaseDisagrees | openssl-1.0.1e/apps/ocsp.c:1158-1175 | a database that loads, whose CRL lists number 10 while the responder does not know it |
| Status.SameInstant | openssl-1.0.1e/crypto/asn1/a_time.c:137-175 | for every UTCTime that loads, the GeneralizedTime of the response says the same date, time and zone, and is well formed exactly unless the UTCTime has 12 characters, no zone among them |
| Status.ZonelessTimeIsAnswered | openssl-1.0.1e/crypto/asn1/a_time.c:137-175 | a revoked row that loads and is answered with a time that is no GeneralizedTime |
| DiskModel.SixNamesApart | openssl-1.0.1e/apps/apps.c:1980-2017 | the six file names of a rotation are distinct exactly under a condition on the two suffixes, which `new` and `old` meet |
| DiskModel.RotateIndexAllOrNothing | openssl-1.0.1e/apps/apps.c:1966-2076 | rotation succeeds exactly when the name fits, both new files exist and the four renames work; if it fails and undoing works, every file but the two set-aside names is as before |
| DiskModel.RotatedFilesMean | openssl-1.0.1e/apps/apps.c:1966-2076 | after success both new files are live, both former ones are kept under the old suffix, and nothing else changed |
| DiskModel.RotateIndexSurvives | openssl-1.0.1e/apps/apps.c:1966-2076 | under every pattern of failing renames, undoing included, and at every point on the way, the former index and attributes exist at their live or set-aside name |
| DiskModel.RotatePairOrigins | openssl-1.0.1e/apps/apps.c:1966-2076 | a live index is the former or the new one; live attributes come from the live, new or old attribute file |
| DiskModel.InstallEffect | openssl-1.0.1e/apps/apps.c:1708-1767 | rotating one file: exact success condition, the files after success, and what a failure leaves |
| DiskModel.SaveSerialOutcome | openssl-1.0.1e/apps/apps.c:1646-1706 | saving succeeds exactly for names of at most 251 characters and a write that works, and leaves the number there |
| DiskModel.SaveIndexOutcome | openssl-1.0.1e/apps/apps.c:1899-1964 | saving succeeds exactly for names of at most 246 characters, some rows and two writes that work, and leaves both files there |
| DiskModel.RotateIndexOutcome | openssl-1.0.1e/apps/apps.c:1966-2076 | exactly when a rotation succeeds, live attributes or none, and what is live and set aside then |
| DiskModel.RotateSerialOutcome | openssl-1.0.1e/apps/apps.c:1708-1767 | exactly when the serial file is rotated, and what is live and set aside then |
| FileSystem.FileSys.SaveSerial | openssl-1.0.1e/apps/apps.c:1646-1706 | writes the serial file under its suffix, or nothing when the name is too long or the file cannot be opened |
| FileSystem.FileSys.SaveIndex | openssl-1.0.1e/apps/apps.c:1899-1964 | writes index and attributes; an index of no rows is a failure |
| FileSystem.FileSys.RotateSerial | openssl-1.0.1e/apps/apps.c:1708-1767 | the renames and the one that undoes them, call by call as specified |
| FileSystem.FileSys.RotateIndex | openssl-1.0.1e/apps/apps.c:1966-2076 | the four renames and up to three that undo them, call by call as specified |
| Commit.NextSerialIsFree | openssl-1.0.1e/apps/ca.c:1974-1982 | a number above every serial in the database is never refused as already issued |
| Commit.BatchKeeps | openssl-1.0.1e/apps/ca.c:1184-1269 | each certificate signed appends one row and takes the next number; the counter stays above all rows and every row stays acceptable |
| Commit.BatchRows | openssl-1.0.1e/apps/ca.c:1184-1269 | the rows a batch adds are those of the signed requests, in order, numbered one by one |
| Commit.BatchSucceedsIff | openssl-1.0.1e/apps/ca.c:1184-1269 | with the counter above all rows, a batch succeeds exactly when, under unique_subject, the names of the signed requests are new and differ |
| Commit.CertifyAll | openssl-1.0.1e/apps/ca.c:1184-1269 | the certification loop leaves the database object and the serial number as specified, and is abandoned exactly on a clash |
| Commit.CommitBatch | openssl-1.0.1e/apps/ca.c:1274-1366 | the calls that save and rotate, in order, stopping at the first failure |
| Commit.CommitIssuedOutcome | openssl-1.0.1e/apps/ca.c:1296-1366 | a commit succeeds exactly if the names fit, there are rows and every call works; then the new index, attributes and serial number are live and the former ones set aside |
| Commit.SaveAndRotateOutcome | openssl-1.0.1e/apps/ca.c:1527-1531 | the same for updating and revoking |
| Commit.CommitIssuedSound | openssl-1.0.1e/apps/ca.c:1296-1366 | whichever call fails and wherever the run stops, files that are both live have the serial number above every row of the index |
| Commit.OtherOrderIsUnsafe | openssl-1.0.1e/apps/ca.c:1358-1362 | were the index rotated before the serial file, the number in the live serial file would be that of the first certificate just issued |
| Commit.ActKeepsSound | openssl-1.0.1e/apps/ca.c:1512-1537 | issuing, updating or revoking leaves sound files at every point, and a run that goes on is fit to save again |
| Commit.ActOutcome | openssl-1.0.1e/apps/ca.c:958-988 | an action after which the run goes on leaves its database live, unique_subject included; one that is refused or has nothing to save leaves the files alone; any other goes on exactly if every call works |
| Commit.ActIssues | openssl-1.0.1e/apps/ca.c:1274-1366 | issuing leaves the batch and the number after it live, and writes nothing unless confirmed |
| Commit.RunIsCommitted | openssl-1.0.1e/apps/ca.c:890-980 | a run none of whose actions fails or is refused leaves its last database to the next run |
| Commit.SessionKeepsSound | openssl-1.0.1e/apps/ca.c:890-980 | a run of any actions on one loaded database leaves sound files at every point |
| Commit.EveryHistorySound | openssl-1.0.1e/apps/ca.c:1274-1366 | over every history of runs that fail and crash at will, whatever the attribute files say, the live serial number is free in the live index that is loaded; and exactly when that index loads |
| Commit.EveryHistorySurvives | openssl-1.0.1e/apps/apps.c:1966-2076 | over every history that begins with a live index, a good one is live or set aside in the end, and its rows have evolved from the first ones |
| Commit.LoadedIsGood | openssl-1.0.1e/apps/apps.c:1846-1866 | of sound files the index loads exactly unless unique_subject is on and valid rows share a name, which attribute files that agree with the configuration rule out |
| Commit.AttributesCanBeLost | openssl-1.0.1e/apps/apps.c:2038-2056 | a crash point of a rotation that leaves the new index live without attributes, and then not loadable |
| Commit.LostAttributesExample | openssl-1.0.1e/apps/apps.c:2038-2056 | a sound database that loads, and a history of one crashed run after which it does not |
| Policy.BuildSubject | openssl-1.0.1e/apps/ca.c:1820-1915 | succeeds exactly when every rule is met; the subject is then, in policy order, what the request has of each type, every entry an RDN of its own; otherwise the first rule that is not met is reported with what is wrong with it |
| Policy.ApplyRule | openssl-1.0.1e/apps/ca.c:1829-1914 | the inner loop ends, accepts exactly when the rule is met, and adds exactly the entries of that type |
| Policy.FindInCa | openssl-1.0.1e/apps/ca.c:1868-1898 | finds an entry of the CA equal in type and value exactly when there is one, and tells a missing type from a differing value |
| Policy.WrongInOneWay | openssl-1.0.1e/apps/ca.c:1820-1898 | a rule that is not met is wrong in exactly one of six ways, which BuildSubject reports |
| Policy.SelectedAre | openssl-1.0.1e/apps/ca.c:1820-1915 | an attribute is in the subject exactly when the request has it and the policy lists its type |
| Policy.SelfSignedMatches | openssl-1.0.1e/apps/ca.c:1806-1809 | with the request as its own CA name, a match rule fails only for lack of the attribute |
| SubjectName.RoundTrip | openssl-1.0.1e/apps/apps.c:2120-2207 | parsing inverts an escaping printer: types, values and RDN markers come back exactly when the last value is not empty |
| SubjectName.ParseIff | openssl-1.0.1e/apps/apps.c:2120-2207 | parsing finds the attributes exactly of the subjects that are a way to write them, with any escapes and one more delimiter allowed |
| SubjectName.CopyToken | openssl-1.0.1e/apps/apps.c:2152-2173 | an inner loop copies exactly the unescaped token; writing never overtakes reading |
| SubjectName.ParseAttr | openssl-1.0.1e/apps/apps.c:2148-2206 | one turn of the outer loop: an attribute is stored, its offsets recorded and the next marker preset, all within bounds |
| SubjectName.ParseName | openssl-1.0.1e/apps/apps.c:2120-2207 | succeeds exactly on subjects of the grammar, and the tables then spell out their attributes |
| ArgWords.JoinRoundTrip | openssl-1.0.1e/apps/apps.c:380-449 | cutting up inverts quoting and joining of any argument list, with any blanks, tabs and newlines between and around |
| ArgWords.CutWord | openssl-1.0.1e/apps/apps.c:417-445 | the word at hand is found and terminated in place, and the scan goes on behind it |
| ArgWords.Args.Grow | openssl-1.0.1e/apps/apps.c:405-416 | twenty empty slots are added and the others kept |
| ArgWords.ChopupArgs | openssl-1.0.1e/apps/apps.c:380-449 | the table lists exactly the words of the line, as disjoint NUL-terminated slices in order, and every slot after them is null |
| Extensions.Certificate.CopyExtensions | openssl-1.0.1e/apps/apps.c:1319-1357 | the extension list ends up as specified for none, copy and copyall |
| Extensions.Certificate.DeleteAll | openssl-1.0.1e/apps/apps.c:1343-1348 | the do-while loop ends and removes exactly the extensions of one type |
| Extensions.CopyAddIsMissing | openssl-1.0.1e/apps/apps.c:1319-1357 | copy keeps the existing list as a prefix and adds one extension of each type that was missing |
| Extensions.CopyAllIsSingle | openssl-1.0.1e/apps/apps.c:1319-1357 | copyall leaves exactly one extension of each requested type and as many of every other type as before |
| Extensions.LastsAreLast | openssl-1.0.1e/apps/apps.c:1330-1351 | the extensions kept for the requested types are the last requested ones |
| Extensions.FirstsAreFirst | openssl-1.0.1e/apps/apps.c:1330-1351 | the extensions added for missing types are the first requested ones |
| Extensions.WithoutInOrder | openssl-1.0.1e/apps/apps.c:1343-1348 | copyall keeps exactly the certificate's extensions of other types, in order |
| Extensions.FirstsInOrder | openssl-1.0.1e/apps/apps.c:1330-1351 | copy adds exactly the first of each missing type, in order |
| Extensions.LastsInOrder | openssl-1.0.1e/apps/apps.c:1330-1351 | copyall adds exactly the last of each requested type, in order |
| NextProtos.NextProtosParse | openssl-1.0.1e/apps/apps.c:2735-2767 | fails exactly for 65535 bytes or more or a segment over 255; otherwise every output byte is written and they encode the segments |
| NextProtos.SplitIff | openssl-1.0.1e/apps/apps.c:2745-2762 | the segments are the one way to write the input as texts without commas, with a comma between each two |
| NextProtos.DecodeEncode | openssl-1.0.1e/apps/apps.c:2726-2734 | decoding the length-prefixed list returns the segments |
| CmsSigners.ParseSigners | openssl-1.0.1e/apps/cms.c:391-456 | the option loop and the final flush compute the specified stacks; without a signing operation any pushed signer is an error |
| CmsSigners.AcceptIffBlocks | openssl-1.0.1e/apps/cms.c:436-456 | a command line is accepted exactly when it is made of one or more signers, each alone or with one key before or after it |
| CmsSigners.GroupedIff | openssl-1.0.1e/apps/cms.c:391-456 | there is at most one grouping of the options in which no key passes over a signer before it that has none, and Grouped finds it |
| CmsSigners.AcceptIsGrouped | openssl-1.0.1e/apps/cms.c:391-456 | the machine accepts exactly what can be so grouped, and its stacks are the signers and keys of that grouping |
| CmsSigners.AcceptedPairing | openssl-1.0.1e/apps/cms.c:541-568 | the signers are the -signer arguments in order, each has one key, its own file or an -inkey argument, every -inkey argument is used once, in order, and goes to the free signer before it or else to the next |
| LockTrace.Checker.LockDbgCb | openssl-1.0.1e/apps/openssl.c:155-216 | one call changes modes[] and complains as specified |
| LockTrace.SilentIffDisciplined | openssl-1.0.1e/apps/openssl.c:155-216 | nothing is reported over a run exactly when every call is well formed and each lock is locked and unlocked with the same access in strict alternation |
| LockTrace.ModesSayHeld | openssl-1.0.1e/apps/openssl.c:157-203 | over any run, complaints or not, modes[] says of each lock whether it is held and for which access: that of the first call to lock it since it was last unlocked |
| LockTrace.ComplaintIff | openssl-1.0.1e/apps/openssl.c:162-208 | exactly which complaint the next call draws |
| LockTrace.ModesStayOk | openssl-1.0.1e/apps/openssl.c:157-203 | over any run modes[] holds 0, READ or WRITE |

## Left out

- Option parsing, configuration files, prompts and usage texts, except the two options of `cms`.
- Cryptography, signature checks and ASN.1 encoding; a request that fails them ends the run or is skipped before it reaches the database.
- The string-type checks of `do_body` before the policy, `-preserveDN`, and the removal of e-mail entries for `-noemailDN`: simple passes over one list.
- The file syntax of TXT_DB: writing a database and reading it back is taken to return the same rows.
- `-create_serial`: an issuing run without a serial file ends, as it does without that option.
- Writes that fail part-way without being noticed: `save_index` and `save_serial` do not check every write. A write either fails on opening or completes, unless the run crashes in it.
- A rename that fails with ENOTDIR although its source exists; it would be passed over like a missing file.
- A run's CRL number file, which is rotated like the serial file but bounds nothing in the index.
- The clash check of `do_body` passes a null name to the hash table; the model has it find nothing, which is what happens unless the name of a row hashes to 0.
- Negative serial numbers in certificates and requests; rows with a sign are modelled, and are not found by number.
- The sorting of the CRL by serial number, its extensions and its signature.
- OCSP answers for rows that are neither V nor R: the responder adds none, and the model has it so.
- The second half of `parse_name`, which looks attribute types up and skips unknown types and empty values.
- `chopup_args` on a line with an unclosed quote, where the scan leaves the buffer; `ArgWords.ChopupArgs` requires every quoted word to be closed.
- Memory allocation failures everywhere.
- Expiring rows from 2050 on: `X509_gmtime_adj` then fails and `do_updatedb` uses its null result, so the model asks for a clock of 1950 to 2049 there.
