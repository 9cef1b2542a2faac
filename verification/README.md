# Boot firmware and image tools: a verified model

This project models the stateful cores of a UEFI firmware package for Windows on Arm phones and of the
tool that packs its boot images, in Dafny, and proves what they are relied on for. Code that changes state
step by step is modelled as classes, arrays and loops and proved against specification functions; the
properties are lemmas about those functions and clauses of the methods.

- **Certificate database** (`CertDb`): the length-prefixed bytes of `certdb`, proved to behave as an
  ordered map over any run of insertions and deletions.
- **Signature lists** (`SignatureList`, `ListWalk`, `SignatureFormat`, `KeySearch`, `SignatureFilter`): what lists
  of signatures are, and the code that walks over bytes it does not know to be such lists, in wrapping 64-bit
  arithmetic over the data and the memory behind it: the format check, the searches for keys, and the filter
  that drops signatures already stored.
- **Variable store** (`VariableStore`): the single writes the code makes, as a machine that may stop
  between any two; in every reachable state each private variable has its certificate node.
- **Authenticated variables** (`AuthVariable`, `TimeStamp`): certificate bookkeeping, verification, the four
  authentication paths of PK, the platform mode, Secure Boot, initialization and recovery (UEFI 2.10,
  sections 8.2.2, 32.3 and 32.4.1). The boot constructor starts from any cut-short run of writes, and each
  store write and each allocation may fail. The status `NoReturn` stands for a call that never ends or divides
  by zero. The latter is what the C standard leaves undefined; an AArch64 processor gives zero for it without a
  trap, so on this target such a call usually ends with INVALID_PARAMETER instead.
- **Memory map** (`MemoryMap`): descriptors merged into the free memory of DDR banks by a moving cursor.
- **Boot configuration** (`BootConfig`, `BootConfigScan`, `BootConfigReader`, `BootConfigLibrary`, `Numerals`,
  `BootConfigPresentation`, `BootConfigValues`): a meaning for the lines of an INI text, the scanner over the raw
  buffer that answers accordingly, and what is read of a text that was written of sections and settings.
- **Boot images** (`Struct`, `Paging`, `OsVersion`, `BootImage`, `BootImageReader`, `VendorBoot`,
  `VendorBootReader`, `HeaderLayout`, `ImageArguments`): the writer of boot and vendor boot images, a reader,
  written as a function of the image alone, that recovers everything, and what stands at each offset.
- **Loader patch** (`BranchPatch`), **error log** (`WheaLog`), **serial output** (`RingLog`, `Glyph`,
  `Console`): re-targeting a BL instruction (Arm Architecture Reference Manual DDI 0487, section C6.2), an
  append-only checksummed log in 8-bit and 16-bit arithmetic, a ring log and a frame buffer console.

`StoreLayout` and `NumberTexts` say in bytes and characters what databases, lists and numbers are written as.
`Bytes`, `ByteLayout`, `Bits` and `Efi` hold what these share. `dafny verify dfyconfig.toml` checks the whole project.

## Where the code does not do what one might expect

- `CheckSignatureListFormat` never asks whether a list takes its own header. A list that gives its size as
  zero can pass every test and is looked at for ever (`ZeroSizeHasNoAnswer`); a remainder too short for a
  header is completed by the memory behind it and can be accepted (`RemainderIsAccepted`). `CheckExact` says
  when it does its work: data is what it should be if and only if it is accepted and every list takes its
  header and has signatures of some size. `CheckNoAnswer` says when it does not come to an end: if and only if
  some number of passes brings it to a supported, usable list with signatures of size zero, or of size zero
  itself and a room that is a multiple of theirs.
- The search of KEK and the filter of an append walk in the same way, and stay for ever at a list of size zero:
  the search if and only if no key of it passes (`ScanNoAnswer`), the filter if and only if a new signature is
  looked for there and not found before, or the new list is such a one and nothing of it is kept (`FilterNever`,
  `SearchNoAnswer`). Twenty-eight zero bytes in a stored database are enough (`ZeroBytesHang`), and two requests
  in setup mode get there (`AppendToRemainder`). Where payload, KEK and the stored data consist of lists that
  take their headers, everything comes to an end (`WholeReturns`).
- `ProcessVarWithPk` takes any unsigned request with no payload for a deletion, also an append. Appending
  nothing to a stored PK leaves it stored but drops the platform to setup mode. `AppendNothing` gets there
  from an empty platform, and `ProcessVarWithPk` states that this is the only such request: without failing
  writes the mode agrees with PK afterwards if and only if it was not made.
- `FilterSignatureList` compares new signatures with the old data only, so a signature that the new data
  itself repeats stays repeated (`RepeatedSignatureStays`). After an append no signature is there twice if
  and only if none was before and the new data repeats only what was there (`AppendRepeats`).
- The error log's raw accesses compare with an 8-bit difference. A size above the capacity can be let
  through and then runs past the store (`WrappedSizeRunsPast`); a request that is let through stays inside
  if and only if its size is within the capacity (`InsideIfSmall`).
- A comment with a NUL in it, or line ends that make the text longer than 0xFFFF, turn every lookup in a boot
  configuration into COMPROMISED (`NulInCommentSpoils`).
- A boot image of version 4 with an empty signature file has no signature section although its header
  announces one (`EmptySignatureIsNotFound`).
- On a screen with two rows of text or fewer, and only there, the console never comes back from a line feed
  (`PaintLineFeeds`), so `PutChar` is about screens with more.
- The stored offset of the ring log is brought into range only when a byte is written; writing nothing
  leaves it as it was. `Ring.Write` states when the offset is in range afterwards.
- `AddEntry` of the vendor ramdisk table uses a name up even when it then refuses the board id
  (`NameIsUsedUp`); every other refusal leaves no trace.

## Model

| member | source | states |
|---|---|---|
| `CertDb.ParseExact` | Platforms/AndromedaPkg/Library/AuthVariableLib/AuthServiceInternal.h:64-88 | bytes parse to a list of nodes exactly when they are the length-prefixed layout of that list: the leading word is the buffer length and every node has its sizes |
| `StoreLayout.DatabaseLayout` | Platforms/AndromedaPkg/Library/AuthVariableLib/AuthServiceInternal.h:64-88 | the database in bytes: its length, then each node with GUID, sizes, name and certificate data at their offsets |
| `CertDb.FindCertsFromDb` | Platforms/AndromedaPkg/Library/AuthVariableLib/AuthService.c:1352-1445 | on any well-formed database the scan finds the first node of a (GUID, name), with its offsets and sizes, exactly when there is one |
| `CertDb.ReadNode` | Platforms/AndromedaPkg/Library/AuthVariableLib/AuthService.c:1392-1440 | the fields read at an offset are those of the node that starts there |
| `CertDb.BuildInserted` | Platforms/AndromedaPkg/Library/AuthVariableLib/AuthService.c:1768-1827 | the rebuilt buffer is the old database with its length word raised and one node behind |
| `CertDb.BuildDeleted` | Platforms/AndromedaPkg/Library/AuthVariableLib/AuthService.c:1612-1645 | the rebuilt buffer is the old database with its length word lowered and one node cut out |
| `CertDb.ParseAppend` | Platforms/AndromedaPkg/Library/AuthVariableLib/AuthService.c:1768-1827 | inserting on bytes is appending on node lists |
| `CertDb.ParseRemove` | Platforms/AndromedaPkg/Library/AuthVariableLib/AuthService.c:1612-1645 | deleting on bytes is removing the node on node lists; the result is well-formed again |
| `CertDb.DeleteUndoesInsert` | Platforms/AndromedaPkg/Library/AuthVariableLib/AuthService.c:1546-1839 | deleting a key that was just inserted gives the buffer back byte for byte |
| `CertDb.LookupRemove` | Platforms/AndromedaPkg/Library/AuthVariableLib/AuthService.c:1546-1663 | after a removal every other key finds what it found before |
| `CertDb.StepRefines` | Platforms/AndromedaPkg/Library/AuthVariableLib/AuthService.c:1546-1839 | one insertion or deletion on bytes, accepted or refused, is the same step on an ordered map; no key is there twice and the size stays within mMaxCertDbSize |
| `CertDb.RunRefines` | Platforms/AndromedaPkg/Library/AuthVariableLib/AuthService.c:1352-1839 | over any run from the empty database the bytes parse, keys stay distinct, the length word is the length, the size is bounded, and lookups answer what the run of operations says |
| `SignatureList.ParseSound` | Platforms/AndromedaPkg/Library/AuthVariableLib/AuthService.c:1113-1124 | bytes that parse are the layout of well-formed lists |
| `SignatureList.ParseComplete` | Platforms/AndromedaPkg/Library/AuthVariableLib/AuthService.c:1113-1124 | the layout of well-formed lists parses to them, so the format is unambiguous |
| `StoreLayout.ListsLayout` | Platforms/AndromedaPkg/Library/AuthVariableLib/AuthService.c:1113-1124 | serialized lists in bytes: type, sizes, header and each signature at its offset |
| `SignatureFilter.FindSignature` | Platforms/AndromedaPkg/Library/AuthVariableLib/AuthService.c:1127-1159 | the two inner loops over any old data, with the memory behind it: what the search comes to, or that it has no answer |
| `SignatureFilter.SearchExact` | Platforms/AndromedaPkg/Library/AuthVariableLib/AuthService.c:1127-1159 | over well-formed old lists a signature is found exactly if they hold one of that type, size and bytes |
| `SignatureFilter.SearchNoAnswer` | Platforms/AndromedaPkg/Library/AuthVariableLib/AuthService.c:1130-1159 | the search never ends exactly if it comes, past lists without the signature, to a list of size zero without it |
| `SignatureFilter.FilterSignatureList` | Platforms/AndromedaPkg/Library/AuthVariableLib/AuthService.c:1082-1200 | for any old and new bytes the buffer is overwritten in place with what the walk leaves, never longer, or the call never returns, or more is written than scratch memory was asked for; without scratch memory or new data nothing changes |
| `SignatureFilter.FilterBytesExact` | Platforms/AndromedaPkg/Library/AuthVariableLib/AuthService.c:1107-1196 | well-formed lists on both sides give bytes that parse to the new lists filtered by the old ones |
| `SignatureFilter.FilterNever` | Platforms/AndromedaPkg/Library/AuthVariableLib/AuthService.c:1121-1191 | the filter never ends exactly if some number of turns brings it to a new list it never gets past: with signatures of size zero, with one for which the search never ends, or of size zero with nothing kept |
| `SignatureFilter.ListsNever` | Platforms/AndromedaPkg/Library/AuthVariableLib/AuthService.c:1121-1191 | for well-formed new lists: exactly if the search for one of their signatures never ends |
| `SignatureFilter.WholeIsFiltered` | Platforms/AndromedaPkg/Library/AuthVariableLib/AuthService.c:1121-1197 | new lists that take their headers fit into the scratch memory asked for; if the old ones take theirs, the filter comes to an end |
| `SignatureFilter.ZeroBytesHang` | Platforms/AndromedaPkg/Library/AuthVariableLib/AuthService.c:1130-1159 | old data of zero bytes, against which the filter of any signature never ends |
| `SignatureFilter.RemainderHangs` | Platforms/AndromedaPkg/Library/AuthVariableLib/AuthService.c:1130-1159 | so with a remainder of twelve bytes in front of zeros |
| `SignatureList.FilterExact` | Platforms/AndromedaPkg/Library/AuthVariableLib/AuthService.c:1107-1190 | filtering keeps exactly the signatures that the old data does not hold, in order |
| `SignatureList.FilterShrinks` | Platforms/AndromedaPkg/Library/AuthVariableLib/AuthService.c:1107-1196 | the filtered lists are never longer, and well-formed |
| `SignatureList.FilterIdempotent` | Platforms/AndromedaPkg/Library/AuthVariableLib/AuthService.c:1082-1200 | a second run changes nothing |
| `SignatureList.AppendAfterFilter` | Platforms/AndromedaPkg/Library/AuthVariableLib/AuthService.c:292-309 | old data with the filtered data behind it holds exactly the signatures of old and new data |
| `SignatureList.AppendRepeats` | Platforms/AndromedaPkg/Library/AuthVariableLib/AuthService.c:1127-1148 | old data with the filtered data behind it holds no signature twice exactly if the old data does not and the new data repeats only what the old data holds |
| `SignatureList.RepeatedSignatureStays` | Platforms/AndromedaPkg/Library/AuthVariableLib/AuthService.c:1113-1190 | a list with a signature twice, for which filtering keeps both |
| `SignatureFormat.CheckSignatureListFormat` | Platforms/AndromedaPkg/Library/AuthVariableLib/AuthService.c:513-622 | the loop over the raw bytes, with the memory behind them: accepted, rejected, or without an answer |
| `SignatureFormat.CheckExact` | Platforms/AndromedaPkg/Library/AuthVariableLib/AuthService.c:557-621 | data is a whole number of well-formed lists of supported types with usable keys, in PK with at most one signature, exactly if it is accepted and every list takes its header and has signatures of some size |
| `SignatureFormat.ListsAccepted` | Platforms/AndromedaPkg/Library/AuthVariableLib/AuthService.c:557-621 | for well-formed lists, the X.509 ones with a signature and room for its owner: accepted exactly if the type of each is in the table, its header and signature sizes are those the first entry for it demands, its keys are usable, and PK has at most one signature |
| `SignatureFormat.UnlistedIsRejected` | Platforms/AndromedaPkg/Library/AuthVariableLib/AuthService.c:565-586 | well-formed lists of which one has a type the table does not know, or other sizes than the first entry for its type demands, are rejected |
| `SignatureFormat.CheckNoAnswer` | Platforms/AndromedaPkg/Library/AuthVariableLib/AuthService.c:557-611 | the check has no answer exactly if some number of passes brings it to a supported, usable list within the data with signatures of size zero, or of size zero with a room that is a multiple of their size |
| `SignatureFormat.WholeIsChecked` | Platforms/AndromedaPkg/Library/AuthVariableLib/AuthService.c:557-621 | it has one wherever every list takes its header and has signatures of some size |
| `SignatureFormat.ZeroSizeNeverLeft` | Platforms/AndromedaPkg/Library/AuthVariableLib/AuthService.c:557-611 | a list of size zero that passes the tests is looked at again after any number of passes |
| `SignatureFormat.ZeroSizeHasNoAnswer` | Platforms/AndromedaPkg/Library/AuthVariableLib/AuthService.c:557-611 | such a list: an X.509 list with a usable certificate, although its data is not what it should be |
| `SignatureFormat.RemainderIsAccepted` | Platforms/AndromedaPkg/Library/AuthVariableLib/AuthService.c:557-615 | twelve bytes that are no list and are accepted, because the memory behind them completes one |
| `KeySearch.ScanKeys` | Platforms/AndromedaPkg/Library/AuthVariableLib/AuthService.c:2292-2326 | the search of KEK over raw bytes: a key that passes, none, or no answer |
| `KeySearch.ScanNoAnswer` | Platforms/AndromedaPkg/Library/AuthVariableLib/AuthService.c:2292-2326 | it has no answer exactly if it comes, past lists without a key that passes, to an X.509 list with signatures of size zero, or to a list of size zero without a key that passes |
| `KeySearch.WholeIsScanned` | Platforms/AndromedaPkg/Library/AuthVariableLib/AuthService.c:2292-2326 | it has one wherever every list takes its header and has signatures of some size |
| `KeySearch.ScanExact` | Platforms/AndromedaPkg/Library/AuthVariableLib/AuthService.c:2292-2326 | over well-formed lists it finds a key that passes exactly if some X.509 signature holds one |
| `KeySearch.FirstKeyIs` | Platforms/AndromedaPkg/Library/AuthVariableLib/AuthService.c:2256-2263 | the key taken from PK is the certificate of its first signature, whatever stands behind the first list |
| `TimeStamp.NotLaterIsTotalOrder` | Platforms/AndromedaPkg/Library/AuthVariableLib/AuthService.c:1213-1232 | the comparison of timestamps is a total order |
| `TimeStamp.NotLaterIsOrderOfTime` | Platforms/AndromedaPkg/Library/AuthVariableLib/AuthService.c:1213-1232 | it is the order of time: that of the numbers made of year, month, day, hour, minute and second, the year counting most |
| `TimeStamp.NoReplay` | Platforms/AndromedaPkg/Library/AuthVariableLib/AuthService.c:2089-2096 | timestamps of a run of accepted updates strictly increase, so none is accepted again |
| `AuthVariable.AuthVariables.UpdateRepeatedly` | Platforms/AndromedaPkg/Library/AuthVariableLib/AuthService.c:2490-2574 | over any run of updates, of any variables with any attributes, keys and conditions, the timestamps of one stored variable strictly increase, as those numbers, unless it is appended to or deleted in between |
| `VariableStore.WriteKeepsConsistent` | Platforms/AndromedaPkg/Library/AuthVariableLib/AuthService.c:2397-2416 | each single write the code makes keeps the certificate databases well-formed and covering the stored variables |
| `VariableStore.RunIsConsistent` | Platforms/AndromedaPkg/Library/AuthVariableLib/AuthService.c:1011-1027 | so does every run of such writes |
| `VariableStore.CrashLeavesCovered` | Platforms/AndromedaPkg/Library/AuthVariableLib/AuthVariableLib.c:315-343 | cut short after any write, what is left without power still has a certificate node for every stored private variable |
| `VariableStore.WroteLists` | Platforms/AndromedaPkg/Library/AuthVariableLib/AuthService.c:267-321 | an update by well-formed lists leaves well-formed lists; an append to a signature database adds exactly what the filter leaves |
| `VariableStore.WroteKeepsLists` | Platforms/AndromedaPkg/Library/AuthVariableLib/AuthService.c:292-309 | so every signature database stays well-formed |
| `AuthVariable.AuthVariables.UpdateVariable` | Platforms/AndromedaPkg/Library/AuthVariableLib/AuthService.c:228-249 | one write to the variable store: it succeeds with its whole effect or fails without any; every write is one the crash machine allows |
| `AuthVariable.AuthVariables.GetCertsFromDb` | Platforms/AndromedaPkg/Library/AuthVariableLib/AuthService.c:1463-1529 | the certificate data of a key, exactly if its node is there |
| `AuthVariable.AuthVariables.DeleteCertsFromDb` | Platforms/AndromedaPkg/Library/AuthVariableLib/AuthService.c:1546-1663 | takes the node of a key out of the database of its storage; unless a write fails this succeeds exactly if the key is there or the database is empty, and a failure changes nothing |
| `AuthVariable.AuthVariables.InsertCertsToDb` | Platforms/AndromedaPkg/Library/AuthVariableLib/AuthService.c:1687-1839 | records the digest of a signer under a new key; unless a write fails this succeeds exactly for a new key with a digest and room for its node, and a failure changes nothing |
| `AuthVariable.AuthVariables.CleanCertsFromDb` | Platforms/AndromedaPkg/Library/AuthVariableLib/AuthService.c:1853-1948 | terminates; unless memory runs out it leaves exactly the nodes whose variable is stored with the time-based attribute, in their order, and if it does, it ends early and has dropped no such node |
| `AuthVariable.RemoveOrphan` | Platforms/AndromedaPkg/Library/AuthVariableLib/AuthService.c:1917-1939 | deleting by first key match takes the same node as deleting by position, and keeps every surviving node |
| `AuthVariable.AllSurvive` | Platforms/AndromedaPkg/Library/AuthVariableLib/AuthService.c:1875-1947 | once no orphan is found, every node has its variable |
| `AuthVariable.AuthVariables.FilteredPayload` | Platforms/AndromedaPkg/Library/AuthVariableLib/AuthService.c:292-309 | the payload of an append to a stored signature database goes through the filter, every other is taken as it is |
| `AuthVariable.AuthVariables.UpdateVariableWithTimeStamp` | Platforms/AndromedaPkg/Library/AuthVariableLib/AuthService.c:267-321 | what is stored is the one update by what the filter leaves of the payload, and the rest of the store stays; it does not return where the filter never ends; otherwise, unless a write fails, it succeeds exactly if there is a variable or a payload |
| `AuthVariable.KekVerdictIsMembership` | Platforms/AndromedaPkg/Library/AuthVariableLib/AuthService.c:2292-2326 | a signature is accepted for a well-formed KEK exactly if an X.509 signature in it holds a key that verifies it |
| `AuthVariable.AuthVariables.VerifyWithPk` | Platforms/AndromedaPkg/Library/AuthVariableLib/AuthService.c:2223-2274 | exactly if the signer's top-level certificate is the key in front of PK and verifies the signature |
| `AuthVariable.PkSignatureIs` | Platforms/AndromedaPkg/Library/AuthVariableLib/AuthService.c:2244-2274 | with a list in front of PK: exactly if the signer's top-level certificate is the first key of that list, byte for byte, and the signature verifies with it over name, GUID, attributes, time and payload |
| `AuthVariable.SelfSignatureIs` | Platforms/AndromedaPkg/Library/AuthVariableLib/AuthService.c:2417-2432 | the same for the first key of the payload's own first list |
| `AuthVariable.SignerIsOnRecord` | Platforms/AndromedaPkg/Library/AuthVariableLib/AuthService.c:2327-2395 | for a stored private variable: exactly if the record of its key in the database of its storage is the digest of the signer's certificates in the signature's hash algorithm, and the signature verifies |
| `AuthVariable.NobodySigned` | Platforms/AndromedaPkg/Library/AuthVariableLib/AuthService.c:2223-2451 | a signature that verifies with no certificate is accepted for no kind of variable |
| `AuthVariable.UnsignedFails` | Platforms/AndromedaPkg/Library/AuthVariableLib/AuthService.c:2010-2462 | and a request with one passes for none while the policy engine is on |
| `AuthVariable.PassingIs` | Platforms/AndromedaPkg/Library/AuthVariableLib/AuthService.c:2074-2462 | a request passes exactly with zero padding, a PKCS#7 descriptor, an accepted digest algorithm, a time whose number is greater than the stored one unless it appends, an authentic signature unless it is an unsigned deletion with the policy engine off, and an accepted format |
| `AuthVariable.AuthVariables.VerifyPrivate` | Platforms/AndromedaPkg/Library/AuthVariableLib/AuthService.c:2327-2416 | exactly if the signer verifies and is the one on record, and for a new variable also can be recorded |
| `AuthVariable.AuthVariables.VerifyTimeBasedPayload` | Platforms/AndromedaPkg/Library/AuthVariableLib/AuthService.c:2010-2462 | success exactly for a request that is well-formed, newer than what is stored, authentic for its kind of variable and of accepted format, and whose signer can be recorded if it is new; no return exactly where a search or the format check has no answer; only recording a new signer writes anything, and that before the variable is created |
| `AuthVariable.AuthVariables.VerifyTimeBasedPayloadAndUpdate` | Platforms/AndromedaPkg/Library/AuthVariableLib/AuthService.c:2490-2574 | only an authentic, newer request writes anything; unless a write fails it succeeds exactly if its filter ends, there is something to write or delete and the signer's record can be kept in step, and then the variable holds the payload; it does not return exactly if verification or filter does not; the signer of a new private variable is on record, a record stays until the variable is deleted, and deleting it drops its certificate node after it |
| `AuthVariable.AuthVariables.UpdatePlatformMode` | Platforms/AndromedaPkg/Library/AuthVariableLib/AuthService.c:384-498 | mode and SetupMode change together; before runtime SecureBoot and SecureBootEnable follow, with the values 1 and 1 in user mode with SecureBoot stored, else 0 and deleted |
| `AuthVariable.AuthVariables.VendorKeyIsModified` | Platforms/AndromedaPkg/Library/AuthVariableLib/AuthService.c:631-662 | the vendor key state is recorded once, in both variables |
| `AuthVariable.AuthVariables.ProcessVarWithPk` | Platforms/AndromedaPkg/Library/AuthVariableLib/AuthService.c:688-819 | all four authentication paths; unless a store write fails, a request succeeds exactly if it passes its path, its filter ends and it is not the deletion of nothing, and does not return exactly if its verification or its filter does not; the variable then holds what was asked for, and user mode agrees with a stored PK exactly when the request was not an unsigned append of nothing to PK; with the policy engine on, in user mode and without custom mode and someone present, a request whose signature verifies with no certificate neither succeeds nor changes anything protected |
| `AuthVariable.AuthVariables.TakenUnsigned` | Platforms/AndromedaPkg/Library/AuthVariableLib/AuthService.c:716-733 | with someone present in custom mode, the policy engine off, or in setup mode without a demand for self-signing, a request passes exactly if its attributes and format do |
| `AuthVariable.AuthVariables.TakenSigned` | Platforms/AndromedaPkg/Library/AuthVariableLib/AuthService.c:747-801 | otherwise user mode asks for a request that passes with PK's signature, and setup mode, where self-signing is required and enforced, for one that passes with the payload's own certificate |
| `AuthVariable.AppendNothing` | Platforms/AndromedaPkg/Library/AuthVariableLib/AuthService.c:744-815 | from an empty platform, a boot, an enrolment and a request for which that exception happens: the mode drops to setup mode while PK stays stored |
| `AuthVariable.AppendToRemainder` | Platforms/AndromedaPkg/Library/AuthVariableLib/AuthService.c:709-733 | in setup mode, two requests to db of which the first stores a remainder and the second, an append, never returns |
| `AuthVariable.WholeReturns` | Platforms/AndromedaPkg/Library/AuthVariableLib/AuthService.c:2010-2462 | where payload, KEK and stored data consist of lists that take their headers, format check, verification and filter all come to an end |
| `AuthVariable.AuthVariables.ProcessVarWithKek` | Platforms/AndromedaPkg/Library/AuthVariableLib/AuthService.c:844-911 | unless a store write fails, success exactly in setup or custom mode with an accepted format, or for a request that passes with a KEK signature, if its filter ends and it is not the deletion of nothing; no return exactly if verification, format check or filter does not; the variable then holds what was asked for; with the policy engine on, in user mode and without custom mode and someone present, a request whose signature verifies with no certificate neither succeeds nor changes anything protected |
| `AuthVariable.AuthVariables.ProcessVariable` | Platforms/AndromedaPkg/Library/AuthVariableLib/AuthService.c:989-1071 | a stored authenticated variable is changed only by an authentic newer request or deleted by someone present; when a plain write, a signed one and a deletion by presence succeed, what is stored then, and that variable and signer's record stay in step; with the policy engine on and nobody present in custom mode, a request whose signature verifies with no certificate leaves every stored authenticated variable as it was |
| `AuthVariable.AuthVariables.ProcessSignatureDb` | Platforms/AndromedaPkg/Library/AuthVariableLib/AuthVariableLib.c:456-466 | a request to db, dbx or dbt is served exactly if it passes with PK, or with KEK after PK gave an error, and its filter ends; it does not return exactly if one of these steps does not; well-formed databases stay so unless the payload has a list too small for its header; with the policy engine on, in user mode and without custom mode and someone present, a request whose signature verifies with no certificate neither succeeds nor changes anything protected |
| `AuthVariable.AuthVariables.ProcessRequest` | Platforms/AndromedaPkg/Library/AuthVariableLib/AuthVariableLib.c:442-472 | each variable gets its handler: keys are served exactly if they pass, what succeeds is stored, signature databases stay well-formed, records stay in step with variables, and the mode agrees with PK and is reported |
| `AuthVariable.AuthVariables.ProcessRequests` | Platforms/AndromedaPkg/Library/AuthVariableLib/AuthVariableLib.c:442-472 | over any run of requests the mode agrees with PK, SecureBoot on implies user mode before runtime, both certificate databases hold exactly the records of the private variables stored in their storage as long as attributes stay the same, and signature databases stay well-formed; from user mode, a run without a signature that verifies, custom mode or an unlocked policy leaves keys, databases, reports and every authenticated variable as they were |
| `AuthVariable.AuthVariables.InitializeMode` | Platforms/AndromedaPkg/Library/AuthVariableLib/AuthVariableLib.c:204-304 | the mode is taken from PK and reported, custom mode is off, SecureBootEnable holds the policy in user mode; SecureBoot is on exactly with a PK and a policy that does not forbid it |
| `AuthVariable.AuthVariables.InitializeCertDbs` | Platforms/AndromedaPkg/Library/AuthVariableLib/AuthVariableLib.c:311-360 | "certdb" is created or cleaned up, "certdbv" starts empty; in both, nodes and private variables stored there are then the same keys |
| `AuthVariable.AuthVariables.Initialize` | Platforms/AndromedaPkg/Library/AuthVariableLib/AuthVariableLib.c:155-419 | after a boot on whatever a cut-short run left: mode, reports, SecureBoot and both certificate databases are all in step, and no key, signature database or private variable is touched; it fails only where a write or an allocation does; on success every status variable holds the value given for it, with custom mode off, and the vendor key state is the one that was stored, or valid if none was |
| `AuthVariable.AuthVariables.SignedAfterBoot` | Platforms/AndromedaPkg/Library/AuthVariableLib/AuthVariableLib.c:296-303 | so after a boot with a PK, while the policy engine is on, no request is taken unsigned |
| `MemoryMap.MemoryMapLib.MergeDdrBankRegions` | Platforms/AndromedaPkg/Library/AndromedaMemoryMapLib/AndromedaMemoryMapLib.c:162-249 | the table is filled with the merged map and its terminator, and it fails exactly when more than 127 entries are needed |
| `MemoryMap.MergedCoverage` | Platforms/AndromedaPkg/Library/AndromedaMemoryMapLib/AndromedaMemoryMapLib.c:174-248 | for any descriptors in any order an address is covered exactly if it lies in a bank or in a descriptor |
| `MemoryMap.MergedApart` | Platforms/AndromedaPkg/Library/AndromedaMemoryMapLib/AndromedaMemoryMapLib.c:174-248 | sorted disjoint descriptors and disjoint banks give pairwise disjoint entries |
| `MemoryMap.RamIsGaps` | Platforms/AndromedaPkg/Library/AndromedaMemoryMapLib/AndromedaMemoryMapLib.c:130-145 | the RAM partitions are exactly the maximal gaps the descriptors leave in the banks |
| `MemoryMap.EveryDescriptorOnce` | Platforms/AndromedaPkg/Library/AndromedaMemoryMapLib/AndromedaMemoryMapLib.c:174-248 | every descriptor is in the map exactly once and unchanged |
| `MemoryMap.MergedOrder` | Platforms/AndromedaPkg/Library/AndromedaMemoryMapLib/AndromedaMemoryMapLib.c:174-248 | with the banks in order the entries are in address order twice: the RAM and the descriptors that share addresses with a bank, and behind them those that share none |
| `MemoryMap.OverlapsIs` | Platforms/AndromedaPkg/Library/AndromedaMemoryMapLib/AndromedaMemoryMapLib.c:119-127 | a descriptor and a bank overlap exactly if they share an address, or one is empty and strictly inside the other |
| `MemoryMap.MergedConservation` | Platforms/AndromedaPkg/Library/AndromedaMemoryMapLib/AndromedaMemoryMapLib.c:174-248 | RAM bytes and descriptor bytes inside banks add up to the bank bytes |
| `BootConfig.OneAnswer` | Platforms/AndromedaPkg/Library/AndromedaBootConfigLib/AndromedaBootConfigLib.c:239-346 | a lookup has one answer: compromised exactly for a malformed line anywhere or a key repeated in its section, missing exactly without fault and match, else the value |
| `BootConfigScan.TrimRange` | Platforms/AndromedaPkg/Library/AndromedaBootConfigLib/AndromedaBootConfigLib.c:94-109 | the range is the trimmed text |
| `BootConfigScan.TrimInlineComment` | Platforms/AndromedaPkg/Library/AndromedaBootConfigLib/AndromedaBootConfigLib.c:111-150 | the scan cuts at the first comment mark that is outside quotes and starts the text or follows a space |
| `BootConfigScan.RangeEqualsString` | Platforms/AndromedaPkg/Library/AndromedaBootConfigLib/AndromedaBootConfigLib.c:41-62 | equality up to the case of ASCII letters |
| `BootConfigScan.ReadHeader` | Platforms/AndromedaPkg/Library/AndromedaBootConfigLib/AndromedaBootConfigLib.c:256-286 | a header is bad exactly if it is not closed or something else than a comment follows; otherwise its trimmed name |
| `BootConfigScan.ReadKey` | Platforms/AndromedaPkg/Library/AndromedaBootConfigLib/AndromedaBootConfigLib.c:288-305 | the key in front of the first equals sign |
| `BootConfigReader.FindValue` | Platforms/AndromedaPkg/Library/AndromedaBootConfigLib/AndromedaBootConfigLib.c:239-335 | the pass over the raw text answers what its lines mean |
| `BootConfigReader.FindEntry` | Platforms/AndromedaPkg/Library/AndromedaBootConfigLib/AndromedaBootConfigLib.c:496-569 | the pass finds the entry with a number among the non-empty texts of the section, and fails only for a bad header in front of it |
| `BootConfigReader.LineStep` | Platforms/AndromedaPkg/Library/AndromedaBootConfigLib/AndromedaBootConfigLib.c:244-248 | the pass goes from each line to the next and loses none |
| `BootConfigLibrary.BootConfigLib.SetBuffer` | Platforms/AndromedaPkg/Library/AndromedaBootConfigLib/AndromedaBootConfigLib.c:64-92 | a text is accepted exactly if it is given, at most 0xFFFF long and free of NUL; a refusal clears the one before |
| `BootConfigLibrary.BootConfigLib.GetBootConfig` | Platforms/AndromedaPkg/Library/AndromedaBootConfigLib/AndromedaBootConfigLib.c:152-184 | the buffer comes before the hand-off block |
| `BootConfigLibrary.BootConfigLib.GetValue` | Platforms/AndromedaPkg/Library/AndromedaBootConfigLib/AndromedaBootConfigLib.c:186-347 | the answer for the whole text, compromised for a NUL or a text too long, is delivered with its size; a buffer that is too small stays as it was |
| `BootConfigLibrary.BootConfigLib.GetSectionEntry` | Platforms/AndromedaPkg/Library/AndromedaBootConfigLib/AndromedaBootConfigLib.c:449-570 | the same for the entry with a number |
| `BootConfigLibrary.ReportedSizeIsExact` | Platforms/AndromedaPkg/Library/AndromedaBootConfigLib/AndromedaBootConfigLib.c:337-346 | a retry succeeds with the same value exactly if its buffer has the size reported |
| `Numerals.ParseUint64` | Platforms/AndromedaPkg/Library/AndromedaBootConfigLib/AndromedaBootConfigLib.c:381-418 | success exactly for a decimal or 0x numeral of at most 2^64-1, with that number |
| `Numerals.GuardIsExact` | Platforms/AndromedaPkg/Library/AndromedaBootConfigLib/AndromedaBootConfigLib.c:409-412 | the division guard rejects exactly the digit that would overflow |
| `Numerals.NumberGrows` | Platforms/AndromedaPkg/Library/AndromedaBootConfigLib/AndromedaBootConfigLib.c:394-415 | no further digit could bring an overflowed number back |
| `NumberTexts.NumeralIsRead` | Platforms/AndromedaPkg/Library/AndromedaBootConfigLib/AndromedaBootConfigLib.c:381-418 | every number written in decimal, or in hexadecimal behind 0x or 0X, is a numeral with that value |
| `NumberTexts.DigitIs` | Platforms/AndromedaPkg/Library/AndromedaBootConfigLib/AndromedaBootConfigLib.c:394-407 | the digits, in both cases, and nothing else |
| `BootConfigLibrary.BootConfigLib.GetUint64` | Platforms/AndromedaPkg/Library/AndromedaBootConfigLib/AndromedaBootConfigLib.c:349-419 | for values of at most 31 characters, exactly the numerals within 64 bits |
| `BootConfigLibrary.BootConfigLib.GetUint32` | Platforms/AndromedaPkg/Library/AndromedaBootConfigLib/AndromedaBootConfigLib.c:421-447 | the same within 32 bits |
| `BootConfigPresentation.CrlfMakesNoDifference` | Platforms/AndromedaPkg/Library/AndromedaBootConfigLib/AndromedaBootConfigLib.c:94-109 | replacing every LF by CRLF changes neither lookup for any section, key and number, except that a text it makes too long is compromised |
| `BootConfigPresentation.BlankLinesMakeNoDifference` | Platforms/AndromedaPkg/Library/AndromedaBootConfigLib/AndromedaBootConfigLib.c:254-255 | an empty or commented-out line at any line boundary changes neither lookup, except that a NUL in it or a text it makes too long is compromised, and a text of nothing else has nothing |
| `BootConfigPresentation.BlankLastLineMakesNoDifference` | Platforms/AndromedaPkg/Library/AndromedaBootConfigLib/AndromedaBootConfigLib.c:244-255 | the same for one behind a text, whether or not the text ends with a line end, and without a line end of its own |
| `BootConfigPresentation.NulInCommentSpoils` | Platforms/AndromedaPkg/Library/AndromedaBootConfigLib/AndromedaBootConfigLib.c:232-237 | a comment with a NUL turns the lookup into compromised |
| `BootConfigValues.QuotedValue` | Platforms/AndromedaPkg/Library/AndromedaBootConfigLib/AndromedaBootConfigLib.c:111-150 | behind a key, in any spaces, a text in quotes with a comment behind it is read as the quoted text, whatever marks and spaces it holds |
| `BootConfigValues.EscapedQuoteInValue` | Platforms/AndromedaPkg/Library/AndromedaBootConfigLib/AndromedaBootConfigLib.c:123-138 | a quote behind a backslash does not end it |
| `BootConfigValues.QuotedEntry` | Platforms/AndromedaPkg/Library/AndromedaBootConfigLib/AndromedaBootConfigLib.c:542-548 | the same in an entry, whatever stands in front of the quotes |
| `BootConfigValues.CommentBehindPlain` | Platforms/AndromedaPkg/Library/AndromedaBootConfigLib/AndromedaBootConfigLib.c:140-146 | without quotes, a comment behind a space goes, and marks not behind a space stay |
| `BootConfigValues.HeaderIs` | Platforms/AndromedaPkg/Library/AndromedaBootConfigLib/AndromedaBootConfigLib.c:256-286 | behind a closed header nothing but a comment may stand, in any spaces |
| `BootConfigValues.UnclosedHeader` | Platforms/AndromedaPkg/Library/AndromedaBootConfigLib/AndromedaBootConfigLib.c:256-265 | a header that is not closed is bad |
| `BootConfigValues.SameNameIs` | Platforms/AndromedaPkg/Library/AndromedaBootConfigLib/AndromedaBootConfigLib.c:41-62 | names are the same exactly if they are as long and differ in the case of ASCII letters only |
| `BootConfigValues.RenderParses` | Platforms/AndromedaPkg/Library/AndromedaBootConfigLib/AndromedaBootConfigLib.c:239-335 | a text written of sections and settings is read as them, line by line |
| `BootConfigValues.WrittenIsFound` | Platforms/AndromedaPkg/Library/AndromedaBootConfigLib/AndromedaBootConfigLib.c:186-347 | a setting written once in its section is found with its value |
| `BootConfigValues.UnwrittenIsMissing` | Platforms/AndromedaPkg/Library/AndromedaBootConfigLib/AndromedaBootConfigLib.c:332-335 | one that was not written is missing |
| `BootConfigValues.WrittenTwiceSpoils` | Platforms/AndromedaPkg/Library/AndromedaBootConfigLib/AndromedaBootConfigLib.c:314-323 | one written twice makes its lookup compromised, in whatever case its key and section are |
| `BootConfigValues.EntryIsRead` | Platforms/AndromedaPkg/Library/AndromedaBootConfigLib/AndromedaBootConfigLib.c:449-570 | the entry with a number is the setting with that number in its section, counted over all places where the section is named |
| `Struct.RoundTrip` | ImageResources/mkbootimg.py:113-182 | packed fields are read back wherever they stand |
| `Bits.AndMask` | ImageResources/mkbootimg.py:85-87 | masking with a power of two less one takes the remainder |
| `Paging.PadFile` | ImageResources/mkbootimg.py:85-87 | the bit arithmetic fills the file up to the next multiple, with zeros |
| `Paging.RoundUpIsLeast` | ImageResources/mkbootimg.py:90-92 | pages are rounded up to the least multiple that is enough |
| `Paging.WritePaddedFile` | ImageResources/mkbootimg.py:352-356 | behind whole pages a file adds itself padded; a file not given adds nothing |
| `Paging.CutSections` | ImageResources/mkbootimg.py:624-647 | sizes and page rounding are enough to cut every section out |
| `OsVersion.OsWordDecodes` | ImageResources/mkbootimg.py:363-389 | every number of version and patch level is read off the word again, which fits 32 bits |
| `NumberTexts.VersionIsRead` | ImageResources/mkbootimg.py:363-377 | one to three numbers of up to three digits with points between them are that version |
| `NumberTexts.DateIsRead` | ImageResources/mkbootimg.py:380-389 | a year of four digits and a month of two are that date |
| `BootImage.CommandLineSurvives` | ImageResources/mkbootimg.py:559-563 | split at 511 bytes and joined, every command line that is accepted comes back |
| `BootImage.WriteHeader` | ImageResources/mkbootimg.py:185-264 | the header of every version, refused exactly for a number too large, an unknown version or a missing device tree |
| `BootImage.WriteData` | ImageResources/mkbootimg.py:624-634 | the sections of every version in order |
| `BootImage.MakeBootImage` | ImageResources/mkbootimg.py:650-668 | the image, or a refusal exactly where the arguments allow none |
| `BootImageReader.ImageRoundTrip` | ImageResources/mkbootimg.py:107-264 | a reader that uses the header and page rounding only recovers every number, text and file of versions 0 to 4 |
| `BootImageReader.EmptySignatureIsNotFound` | ImageResources/mkbootimg.py:610-621 | the one exception: a signature of no bytes |
| `BootImageReader.RecoveryOffsetIsTrue` | ImageResources/mkbootimg.py:95-104 | for versions 1 and 2 the offset computed beforehand is where the recovery image stands |
| `BootImageReader.OldHeaderWidth` | ImageResources/mkbootimg.py:39-40 | the header sizes the format names are the sizes written |
| `HeaderLayout.OldHeaderLayout` | ImageResources/mkbootimg.py:192-263 | every field of a header of versions 0 to 2 at its offset in the image; the header size announced is that of the packed header |
| `HeaderLayout.NewHeaderLayout` | ImageResources/mkbootimg.py:107-130 | the same for versions 3 and 4 |
| `HeaderLayout.OldFilesLayout` | ImageResources/mkbootimg.py:624-634 | each file of versions 0 to 2 where the page-rounded sizes of those before it say, with zeros behind it, and nothing after the last |
| `HeaderLayout.NewFilesLayout` | ImageResources/mkbootimg.py:578-634 | the same for versions 3 and 4; without a signing key a page of zeros stands in for the signature |
| `ImageArguments.WritableIs` | ImageResources/mkbootimg.py:650-668 | the arguments that give an image, limit by limit and number by number |
| `VendorBoot.VendorRamdiskTableBuilder.AddEntry` | ImageResources/mkbootimg.py:308-333 | an entry is refused exactly for a banned or repeated name or a bad board id; offsets stay prefix sums; a refusal leaves no trace exactly if it was for the name |
| `VendorBoot.NameIsUsedUp` | ImageResources/mkbootimg.py:310-326 | a name refused for its board id is refused again with a good one |
| `VendorBoot.VendorRamdiskTableBuilder.WriteEntriesPadded` | ImageResources/mkbootimg.py:341-349 | the table of all entries, refused exactly if a number does not fit |
| `VendorBoot.BuildTable` | ImageResources/mkbootimg.py:444-474 | the table of all option groups, refused exactly if its names or board ids are not allowed |
| `VendorBoot.MakeVendorBoot` | ImageResources/mkbootimg.py:651-659 | the vendor image, or a refusal exactly where the arguments allow none |
| `VendorBootReader.EntryCutsItsRamdisk` | ImageResources/mkbootimg.py:328-339 | offset and size of every entry cut exactly its ramdisk out |
| `VendorBootReader.TableRoundTrip` | ImageResources/mkbootimg.py:341-349 | the whole table is read back, with every ramdisk |
| `VendorBootReader.VendorRoundTrip` | ImageResources/mkbootimg.py:133-182 | every vendor image is read back: numbers, texts, device tree, ramdisks, table and boot configuration |
| `VendorBootReader.NamesDiffer` | ImageResources/mkbootimg.py:310-317 | no two ramdisks in an image have the same name, and none the banned one |
| `HeaderLayout.VendorHeaderLayout` | ImageResources/mkbootimg.py:133-182 | every field of a vendor header at its offset, with the size of the packed header and of the table |
| `HeaderLayout.VendorFilesLayout` | ImageResources/mkbootimg.py:637-647 | the sections of a vendor image and where each starts |
| `HeaderLayout.EntryLayout` | ImageResources/mkbootimg.py:341-349 | every field of table entry k, at its offset |
| `ImageArguments.VendorWritableIs` | ImageResources/mkbootimg.py:650-659 | the arguments that give a vendor image, limit by limit and number by number |
| `BranchPatch.EncodedBits` | Platforms/AndromedaPkg/Library/KernelErrataPatcherLib/KernelErrataPatcherLib.h:54-59 | the wrap-around, the division and the 27-bit mask come to the opcode and 26 bits of offset |
| `BranchPatch.BranchRoundTrip` | Platforms/AndromedaPkg/Library/KernelErrataPatcherLib/KernelErrataPatcherLib.h:54-59 | decoding the instruction gives the target exactly if it is within 128 megabytes, in both directions |
| `BranchPatch.MatchIsBranch` | Platforms/AndromedaPkg/Library/KernelErrataPatcherLib/OsLoaderIntercepter.c:109-111 | the scan compares equal exactly for a BL to the function |
| `BranchPatch.Inject` | Platforms/AndromedaPkg/Library/KernelErrataPatcherLib/OsLoaderIntercepter.c:74-94 | the call lands on the first byte of the code, the code ends at the function, and nothing else changes |
| `BranchPatch.FindAndInject` | Platforms/AndromedaPkg/Library/KernelErrataPatcherLib/OsLoaderIntercepter.c:96-119 | the first call followed by the pattern is patched; without one the memory stays as it was |
| `BranchPatch.PatchLoader` | Platforms/AndromedaPkg/Library/KernelErrataPatcherLib/OsLoaderIntercepter.c:149-192 | the loader versions are tried in turn and at most one call is patched |
| `WheaLog.WheaStore.RawRead` | Platforms/AndromedaPkg/Library/MsWheaEarlyStorageLib/MsWheaEarlyStorageLib.c:42-80 | the bytes at indices that wrap at 8 bits; refused exactly for size zero or an 8-bit difference below the offset |
| `WheaLog.WheaStore.RawWrite` | Platforms/AndromedaPkg/Library/MsWheaEarlyStorageLib/MsWheaEarlyStorageLib.c:96-125 | the same for writing: every byte of memory afterwards |
| `WheaLog.InsideIfSmall` | Platforms/AndromedaPkg/Library/MsWheaEarlyStorageLib/MsWheaEarlyStorageLib.c:56-61 | a request that is not refused is inside the store exactly if its size is within the capacity |
| `WheaLog.WrappedSizeRunsPast` | Platforms/AndromedaPkg/Library/MsWheaEarlyStorageLib/MsWheaEarlyStorageLib.c:56-61 | a size above the capacity that is not refused and runs past the store |
| `WheaLog.WheaStore.Read` | Platforms/AndromedaPkg/Library/MsWheaEarlyStorageLib/MsWheaEarlyStorageLib.c:204-224 | for any size and offset: what is let through, what is read, that it is inside the store exactly if the size is within the capacity, and for such sizes that reads succeed exactly inside the store |
| `WheaLog.WheaStore.Write` | Platforms/AndromedaPkg/Library/MsWheaEarlyStorageLib/MsWheaEarlyStorageLib.c:241-258 | the same for writes, which within the capacity change nothing else |
| `WheaLog.WheaStore.FindSlot` | Platforms/AndromedaPkg/Library/MsWheaEarlyStorageLib/MsWheaEarlyStorageLib.c:331-349 | a slot exactly if the record still fits |
| `WheaLog.WheaStore.CalculateChecksum16` | Platforms/AndromedaPkg/Library/MsWheaEarlyStorageLib/MsWheaEarlyStorageLib.c:365-411 | the checksum makes header and data sum up to zero modulo 2^16; ranges that are odd or too long are refused |
| `WheaLog.WheaStore.AddRecord` | Platforms/AndromedaPkg/Library/MsWheaEarlyStorageLib/MsWheaEarlyStorageLib.c:424-519 | a record is appended behind unaltered earlier ones and the sum is zero again; a full store changes nothing |
| `WheaLog.WheaStore.AddRecords` | Platforms/AndromedaPkg/Library/MsWheaEarlyStorageLib/MsWheaEarlyStorageLib.c:424-519 | after any run the active bytes are those before and the records in order |
| `WheaLog.SumWithWord` | Platforms/AndromedaPkg/Library/MsWheaEarlyStorageLib/MsWheaEarlyStorageLib.c:391-395 | clearing and setting the checksum changes the sum by just that word |
| `RingLog.LastBytesStand` | Platforms/AndromedaPkg/Library/FrameBufferInMemorySerialPortLib/FrameBufferInMemorySerialPortLib.c:293-304 | the last bytes written, at most one turn, stand in circular order before the stored offset |
| `RingLog.OthersStay` | Platforms/AndromedaPkg/Library/FrameBufferInMemorySerialPortLib/FrameBufferInMemorySerialPortLib.c:293-304 | every other byte of the ring is as it was |
| `RingLog.Ring.Write` | Platforms/AndromedaPkg/Library/FrameBufferInMemorySerialPortLib/FrameBufferInMemorySerialPortLib.c:293-318 | from any stored offset, the offset moves on by the number of bytes modulo the size, exactly if there is a byte or the offset was in range |
| `Glyph.FillRows` | Platforms/AndromedaPkg/Library/FrameBufferInMemorySerialPortLib/FrameBufferInMemorySerialPortLib.c:173-187 | the pointer paints the background of six rows of five pixels and nothing else |
| `Glyph.DrawRows` | Platforms/AndromedaPkg/Library/FrameBufferInMemorySerialPortLib/FrameBufferInMemorySerialPortLib.c:205-230 | it sets exactly the pixels of the bits, lowest first, and leaves the others |
| `Glyph.DrawGlyph` | Platforms/AndromedaPkg/Library/FrameBufferInMemorySerialPortLib/FrameBufferInMemorySerialPortLib.c:162-258 | the whole cell: foreground exactly where the glyph has a bit, background elsewhere, the rest of the buffer unchanged |
| `Console.CellInside` | Platforms/AndromedaPkg/Library/FrameBufferInMemorySerialPortLib/FrameBufferInMemorySerialPortLib.c:127-132 | every cursor position in the grid has its cell inside the frame buffer |
| `Console.PixelOfCell` | Platforms/AndromedaPkg/Library/FrameBufferInMemorySerialPortLib/FrameBufferInMemorySerialPortLib.c:127-132 | in rows and columns, the pointer passes exactly the 5 by 12 cell of the cursor |
| `Console.FrameBufferConsole.DrawAtCursor` | Platforms/AndromedaPkg/Library/FrameBufferInMemorySerialPortLib/FrameBufferInMemorySerialPortLib.c:127-258 | row r and column k of the cell show bit r % 6 * 5 + k of word 2 * (c - 32) + r / 6 of the font; every other pixel of the screen stays |
| `Console.GridIs` | Platforms/AndromedaPkg/Library/FrameBufferInMemorySerialPortLib/FrameBufferInMemorySerialPortLib.c:86-90 | the grid has as many columns and rows of 6 by 12 cells as fit the screen less one row of pixels |
| `Console.FrameBufferConsole.ResetFb` | Platforms/AndromedaPkg/Library/FrameBufferInMemorySerialPortLib/FrameBufferInMemorySerialPortLib.c:65-83 | the whole screen is painted black |
| `Console.FrameBufferConsole.PutChar` | Platforms/AndromedaPkg/Library/FrameBufferInMemorySerialPortLib/FrameBufferInMemorySerialPortLib.c:96-160 | the jumps end, with one clear exactly for a character that ends the last line; cursor and every pixel afterwards |
| `Console.FrameBufferConsole.PaintLineFeeds` | Platforms/AndromedaPkg/Library/FrameBufferInMemorySerialPortLib/FrameBufferInMemorySerialPortLib.c:143-153 | on any screen, after any number of jumps back the painting code jumps back again exactly with two rows of text or fewer |
| `Console.SerialPort.Write` | Platforms/AndromedaPkg/Library/FrameBufferInMemorySerialPortLib/FrameBufferInMemorySerialPortLib.c:306-327 | for any bytes the cursor stays in the grid, clears are at most one a byte, and the log holds all of it; a text that fits the grid above its last row, written from the top left, is on the screen, character i in column i % MaxX of row i / MaxX, and no other pixel changes |
| `Console.SerialPort.WriteCritical` | Platforms/AndromedaPkg/Library/FrameBufferInMemorySerialPortLib/FrameBufferInMemorySerialPortLib.c:329-355 | the same in yellow, with the colour restored |

## Left out

- The variable store behind FindVariable and UpdateVariable is not shown in the source: it is a map with atomic updates of one variable, each of which may fail without effect; how it merges the timestamps of an append is a parameter nothing is assumed about.
- AuthVariable.AuthVariables.VerifyTimeBasedPayload: the bytes of EFI_VARIABLE_AUTHENTICATION_2 arrive taken apart as a record, and PKCS#7, X.509 and digests are functions nothing is assumed about, because cryptography is foreign code.
- AuthVariable.AuthVariables.FilteredPayload: the scratch buffer is a growing sequence and its absence a flag, because its allocator is not shown; where more is written than it was asked for, what follows is left open, and the conditions for success and return of the requests above it leave that case out. New lists that take their headers never come there.
- SignatureFormat.CheckSignatureListFormat: the table of signature types and the X.509 test are parameters, and so is the memory behind the data.
- SignatureFormat.CheckExact: speaks of data below 4 GiB, above which the 32-bit count of signatures may wrap; so do ListsAccepted and UnlistedIsRejected.
- SignatureFormat.ListsAccepted: leaves out X.509 lists without a signature or with ones smaller than an owner, whose key the code takes from other bytes; `CheckExact` says what is asked of those.
- AuthVariable.AuthVariables.Initialize: the contents of SignatureSupport are a parameter; a boot on a VendorKeysNv of no bytes says nothing of the state.
- Variable names with a meaning of their own are constructors of a datatype; all other variables are keys of GUID and name, with names below 32 KiB.
- CertDb.FindCertsFromDb: a database with a wrong length word is refused as in the code; one with the right length word has well-formed nodes, because the code trusts node sizes there and a size of zero would be scanned for ever.
- AuthVariable.AuthVariables.ProcessSignatureDb: where a store write fails in the first step, the filter may have changed the payload in place, and what the second step sees of it is left open.
- Stored certificate databases are the ones this code wrote: corrupted bytes in them are not modelled. PK, KEK and signature databases may hold any bytes.
- Callers do not write the read-only status variables and do not change the attributes of a stored variable, which the caller of this library rejects.
- AuthVariable.AuthVariables.ProcessRequests: leaves out appending nothing to PK, for which the property is false as stated above; requests whose handler has no return are followed by the others as if it had been refused; records stay in step for private variables whose attributes, append apart, are the same in the whole run, because the variable driver rejects others.
- AuthVariable.AuthVariables.UpdateRepeatedly: speaks of updates that replace the data, because appends merge timestamps in the store.
- CheckRemainingSpaceForConsistency, the address conversion at runtime and the context handed to the variable driver.
- MemoryMap.MergedCoverage: addresses do not wrap at 64 bits; loading the platform's descriptors and the PStore overlay are not part of this model.
- The search for the hand-off block of the boot configuration is a parameter; a NULL pointer is the absence of a value.
- BootConfigLibrary.BootConfigLib.GetValue: characters are those of a text without encoding; the volatile qualifiers of the buffer are not modelled.
- Argument parsing, file access, SHA-1 and avbtool: files are byte sequences that do not change between being measured and being read, the image id and a signature are given bytes.
- OsVersion.OsWordDecodes: digits are the ASCII digits, where the regular expression also takes other ones.
- Numbers are packed little-endian, as on the hosts the tool is used on; option groups with a type by name are resolved before.
- BranchPatch.PatchLoader: unprotecting memory, finding the loader and the shell code itself are parameters; memory is mapped around the function and far enough for the scan.
- WheaLog.WheaStore.AddRecord: MS_WHEA_EARLY_STORAGE_HEADER is not part of this model: sizes and the place of its two 16-bit numbers are parameters, even, within a capacity from 0x40 and the header up to 256; the 256 bytes an 8-bit index reaches are mapped.
- Clearing the error log and filling in the fields of a record.
- Glyph.DrawGlyph: pixels are units, the bytes of a colour inside a pixel are not; the scale factor is the 1 the package uses.
- Console.FrameBufferConsole.PutChar: the cursor starts at the top left, where the source reads whatever memory holds behind the frame buffer; interrupts and cache maintenance are not modelled.
- The other copies of the console and the ring log, FbConScrollUp, which nothing calls, and the serial port functions that return constants.
- User interface, boot manager, device paths, drivers, MMU set-up, the pattern search and debugging aids of the package.
