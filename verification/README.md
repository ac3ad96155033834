# A verified model of swtpm's state handling

swtpm is a software TPM emulator. This project models, in Dafny, the parts of it that
keep, protect, move and guard the TPM's state, and proves what they promise for all
inputs, all runs and all reachable states.

| files | what they model |
|---|---|
| `LinearLayout.dfy`, `LinearStore.dfy`, `PowerOfTwo.dfy` | the linear NVRAM store: named blobs in one buffer with a header table, power-of-two sections, compaction in place |
| `Tlv.dfy`, `SymmetricKey.dfy`, `StateBlob.dfy`, `Bytes.dfy` | the state file and state blob formats: TLV, padding, encrypt-then-HMAC, blob header, nested file-key and migration-key layers |
| `NvStore.dfy` | both together: what a name loads after stores, deletes and failures |
| `DirBackend.dfy`, `DirProcess.dfy`, `CrashSafety.dfy` | the directory backend's rename and backup protocol with failing calls and crashes, as a step machine, as code that refines it, and with the real file format |
| `CuseTransfer.dfy`, `SocketTransfer.dfy`, `Migration.dfy` | transfer of state blobs in pieces over CUSE and over the control socket, and migration end to end |
| `StorageLock.dfy`, `WorkerExclusion.dfy` | ownership of the storage lock, and the threads of the CUSE front end |
| `Options.dfy`, `Strv.dfy`, `FipsProfile.dfy`, `DerHeader.dfy` | the option tokenizer, the string-vector filters behind FIPS profile adjustment, and the backwards DER header writer |

The main results:

* **Linear store.** Every run of store, delete, load and check calls agrees with a plain
  map from name to bytes, and with the file format on top to plaintext
  (`NvStore.Nvram.Run`), through failing system calls as well, until a resize loses the
  mapping of the file or a store needs more than 32-bit offsets; allocated sections always
  tile the buffer, and its end is the sum of its sections (`LinearStore.Store.Run`, `LinearStore.LoadsLastStored`,
  `LinearLayout.EveryByteInOneSection`, `LinearLayout.EndIsSumOfSections`).
* **Formats.** Loading undoes storing and setting undoes getting for every key
  configuration; on arbitrary bytes, `StateBlob.SetStateBlobIff` says exactly which blobs
  are accepted.
* **Crashes.** From every point of every run, a restart ends with a complete stored state
  (`CrashSafety.StateSurvivesCrash`), as long as no store begins while the permanent file is
  torn. Such a store is fatal (`DirBackend.TornFileOverwritesBackup`), and
  `DirBackend.StoreKeepsContentIff` says exactly from which states a store keeps a complete
  content. `DirProcess.Process.Live` says the same of the code, through any number of
  crashed and restarted processes.
* **Migration.** The destination hands exactly the source's plaintext to TPMLIB_SetState,
  over ioctls, over read() and write(), and over sockets (`Migration`). Over sockets a
  request at a later offset continues an earlier one if and only if nothing in the blob is
  encrypted (`Migration.FetchContinuesIff`).
* **Locking and threads.** Every processed command has the storage lock held; two ends on
  shared storage never both hold it; at most one thread is inside libtpms.

`dafny verify dfyconfig.toml` checks the whole project.

Integers are unbounded in Dafny. Where the width matters (32-bit offsets and lengths, the
8-bit type of a pending blob, 64-bit strtoul), the model spells it out. `Crypto` in
`SymmetricKey.dfy` stands for OpenSSL: any functions of which decryption inverts encryption
on whole blocks and digests are 32 bytes long.

Where the code and its documentation disagree, the model follows the code:

* `strv_dedup` (`src/swtpm/utils.c:858-869`) speaks of duplicates of an item. With a key function an entry is dropped if
  any later entry merely *starts with* its key, and an entry with an empty key is never dropped.
* `option_parse_token` (`src/swtpm/options.c:228-246`) promises brace handling for `name={...}`. What is left without any comma
  is taken whole, even with unbalanced braces, because the pointer comparison at
  `src/swtpm/options.c:262-263` discards the equals sign when there is no comma.
* The `resize` operation of a backing store must set data and length as `open` does, to the
  same region or another one (`src/swtpm/swtpm_nvstore_linear.h:75-86`). For a regular file, a failing growth
  returns after munmap and leaves no mapping at all (`src/swtpm/swtpm_nvstore_linear_file.c:306-327`). The file
  keeps its bytes, but no later call can get at them: `LinearStore.FailedGrowthUnmaps`.
* The offset of CMD_GET_STATEBLOB is for reading a long blob in parts. Over the control
  channel every request serializes the state anew (`src/swtpm/ctrlchannel.c:177-197`), with a new IV if a
  layer is encrypted, and announces only the part from the offset on as the total length.
* A minimum key size is what strtoul makes of it: `rsa-min-size=-1` counts as a very large
  one, and `rsa-min-size=` as 0.

## Model

| member | source | states |
|---|---|---|
| Bytes.Memcpy | src/swtpm/swtpm_nvstore_linear.c:421 | the copied range holds the source bytes and every other byte is unchanged |
| Bytes.MemmoveDown | src/swtpm/swtpm_nvstore_linear.c:209-215 | a move to lower addresses over overlapping ranges puts the old bytes of the source range at the destination |
| Bytes.Be32RoundTrip | src/swtpm/swtpm_nvstore.c:1072-1104 | reading a big-endian word gives the number that was written |
| Bytes.Le32RoundTrip | src/swtpm/swtpm_nvstore_linear.h:15-32 | reading a little-endian table word gives the number that was written |
| PowerOfTwo.RoundToNextPowerOf2 | src/swtpm/utils.h:51-60 | for 1 to 2^31 the least power of two not below the argument; 0 for 0 and beyond 2^31, by 32-bit wrap-around |
| PowerOfTwo.LeastPowerUnique | src/swtpm/utils.h:51-60 | there is only one such power of two |
| PowerOfTwo.SmearOnes | src/swtpm/utils.h:54-58 | the five shift-or steps set every bit below the highest one |
| Tlv.Append | src/swtpm/tlv.c:69-120 | the buffer becomes its old contents and the encoding of the entries, unless the total exceeds 32 bits |
| Tlv.EncodedLength | src/swtpm/tlv.c:78-84 | the length that is added up in advance is the length of the encoding |
| Tlv.FindTag | src/swtpm/tlv.c:132-158 | the loop finds what the search function finds, and any result lies inside the buffer |
| Tlv.EncodeAppend | src/swtpm/tlv.c:69-120 | appending to an encoding equals encoding the concatenated list |
| Tlv.FindInEncoding | src/swtpm/tlv.c:132-158 | in an encoding the search returns the first value with the tag, and otherwise goes on behind it |
| Tlv.FindIff | src/swtpm/tlv.c:132-158 | on arbitrary bytes, a value is found if and only if the buffer starts with well-framed entries of other tags followed by that entry |
| SymmetricKey.PadLength | src/swtpm/swtpm_aes.c:116-119 | between one byte and a key length of padding, to a multiple of the key length |
| SymmetricKey.PadData | src/swtpm/swtpm_aes.c:150-165 | the pad buffer holds the data and the pad of section 6.3 of RFC 2630 |
| SymmetricKey.UnpadData | src/swtpm/swtpm_aes.c:279-305 | the checking loop accepts and strips exactly what the unpadding function does |
| SymmetricKey.UnpaddedIff | src/swtpm/swtpm_aes.c:279-305 | accepted if and only if the stream ends in n bytes of value n with n between 1 and the key length |
| SymmetricKey.UnpadInvertsPad | src/swtpm/swtpm_aes.c:279-305 | unpadding padded data gives it back |
| SymmetricKey.DecryptInvertsEncrypt | src/swtpm/swtpm_aes.c:77-310 | decryption with the same key and IV gives back every plaintext, and the ciphertext has the padded length |
| StateBlob.SetKey | src/swtpm/swtpm_nvstore.c:485-545 | a key is installed if and only if it has 16 or 32 bytes and a known mode; a refused key changes nothing |
| StateBlob.GlobalIvec.Roll | src/swtpm/swtpm_nvstore.c:648-684 | an IV of at least the key length, or none exactly if the buffer had to grow and could not |
| StateBlob.HeaderRoundTrip | src/swtpm/swtpm_nvstore.c:1071-1158 | the header check accepts what was prepended and returns version, flags and data |
| StateBlob.StrictPrefixRejected | src/swtpm/swtpm_nvstore.c:1113-1158 | no strict prefix of a file that passes the header check passes it |
| StateBlob.LayerEncodes | src/swtpm/swtpm_nvstore.c:848-896 | a layer always encodes, to the length computed in advance |
| StateBlob.LayerBytes | src/swtpm/swtpm_nvstore.c:848-896 | serializing a layer never fails and gives the length computed in advance |
| StateBlob.EncryptedRoundTrip | src/swtpm/swtpm_nvstore.c:848-974 | decrypting the entries of an encrypted layer, HMAC check included, gives back the data, also without an IV |
| StateBlob.LayerRoundTrip | src/swtpm/swtpm_nvstore.c:848-1021 | the same for either layer, encrypted or plain |
| StateBlob.LoadAfterStore | src/swtpm/swtpm_nvstore.c:298-431 | the stored file loads to the stored data without a key, with a 128-bit and with a 256-bit key, for any IV |
| StateBlob.TornFileDoesNotLoad | src/swtpm/swtpm_nvstore.c:298-367 | no strict prefix of a stored file loads, with whatever key |
| StateBlob.BlobFlagsAreDistinct | src/swtpm/swtpm_nvstore.c:1197-1245 | the flags put into a blob header are read back one by one |
| StateBlob.SetAfterGet | src/swtpm/swtpm_nvstore.c:1165-1372 | setting a fetched blob with the same keys passes exactly the plaintext on, for every combination of keys, key sizes, IVs and the decrypt request |
| StateBlob.OpenLayerIff | src/swtpm/swtpm_nvstore.c:764-846 | a layer opens to a plaintext if and only if its key is present and its check passes (version 2: HMAC over ciphertext and IV; version 1: leading SHA-256), or it is plain and well framed |
| StateBlob.SetStateBlobIff | src/swtpm/swtpm_nvstore.c:1260-1372 | for arbitrary bytes, a payload reaches TPMLIB_SetState if and only if header, both layers and the blob type are in order |
| StateBlob.EmptyBlobClearsState | src/swtpm/swtpm_nvstore.c:1281-1290 | a blob no longer than a header is accepted if and only if its type is known and it is empty or a header that announces just itself; it then passes an empty payload |
| LinearLayout.AllocKeepsTiling | src/swtpm/swtpm_nvstore_linear.c:111-157 | a section placed at the end keeps the tiling |
| LinearLayout.RemoveKeepsTiling | src/swtpm/swtpm_nvstore_linear.c:165-226 | removing a section and shifting the later ones keeps the tiling |
| LinearLayout.RemoveMovesEnd | src/swtpm/swtpm_nvstore_linear.c:165-226 | the end moves down by exactly the removed section |
| LinearLayout.EndIsSumOfSections | src/swtpm/swtpm_nvstore_linear.c:111-226 | no space leaks: the end is the header and the sum of the sections |
| LinearLayout.EveryByteInOneSection | src/swtpm/swtpm_nvstore_linear.c:111-226 | every byte between header and end lies in exactly one section |
| LinearLayout.RemoveKeepsContents | src/swtpm/swtpm_nvstore_linear.c:165-226 | compaction keeps the bytes of every other file at its shifted offset |
| LinearStore.Store.Format | src/swtpm/swtpm_nvstore_linear.c:228-298 | a buffer without the magic becomes an empty store: magic, version and header size are written, and no byte behind the header changes |
| LinearStore.Store.FindEnd | src/swtpm/swtpm_nvstore_linear.c:123-136 | the loop finds the end of the last section |
| LinearStore.Store.Resize | src/swtpm/swtpm_nvstore_linear_file.c:287-340 | exactly when flush, munmap, ftruncate and mmap together succeed, exactly when they leave the file unmapped, and the size the file then has; the bytes up to the smaller size are kept |
| LinearStore.Store.SafeResize | src/swtpm/swtpm_nvstore_linear.c:46-76 | on success there is at least the requested length; table and contents are unchanged either way; exactly when it succeeds, and exactly when the mapping is lost |
| LinearStore.Store.AllocFile | src/swtpm/swtpm_nvstore_linear.c:111-157 | on success the file gets the least power of two as its section, at the end; on failure and for other files nothing changes; succeeds exactly if the backing store grants the new end, and loses the mapping exactly if that does |
| LinearStore.Store.ShiftOffsets | src/swtpm/swtpm_nvstore_linear.c:184-207 | the loop over the table frees the entry, shifts all later ones, and finds the block to move |
| LinearStore.Store.RemoveSection | src/swtpm/swtpm_nvstore_linear.c:184-215 | table update and memmove together drop exactly the one file |
| LinearStore.Store.RemoveFile | src/swtpm/swtpm_nvstore_linear.c:165-226 | the file is gone and every other file has its bytes, also if shrinking fails |
| LinearStore.Store.LoadData | src/swtpm/swtpm_nvstore_linear.c:313-365 | the bytes of the name, TPM_RETRY if it is absent, TPM_FAIL if it is unknown |
| LinearStore.Store.CheckState | src/swtpm/swtpm_nvstore_linear.c:479-503 | the size of what loading would return, with the same errors |
| LinearStore.Store.DeleteName | src/swtpm/swtpm_nvstore_linear.c:444-468 | the name is absent afterwards and no other name changes; the return code, and whether the mapping is lost, as functions of the answers of the system |
| LinearStore.Store.Reallocate | src/swtpm/swtpm_nvstore_linear.c:399-408 | replacing a section too small, with room measured once the old one is gone: a failure loses the old blob of this name, and of no other; exactly when it succeeds |
| LinearStore.FailedGrowthUnmaps | src/swtpm/swtpm_nvstore_linear_file.c:306-327 | a failing ftruncate under a store leaves the file unmapped if and only if the file was to grow |
| LinearStore.Store.StoreData | src/swtpm/swtpm_nvstore_linear.c:367-442 | on success the name holds the bytes and the file is mapped; on failure it holds the new bytes, the old ones or none; other names never change; it succeeds if and only if a section is there or is granted and the flush succeeds, and loses the mapping exactly if the resize does |
| LinearStore.Store.Run | src/swtpm/swtpm_nvstore_linear.c:111-468 | every run of calls, failing ones included, answers as a plain map does; it is cut short only by a store that 32-bit offsets cannot address or by a lost mapping, and no mapping is lost unless some resize drops it |
| LinearStore.Store.HasRoom | src/swtpm/swtpm_nvstore_linear.c:118-141 | whether the end, without the old section of the file, and the new section stay below 2^32 |
| LinearStore.Store.RunOfSmallBlobs | src/swtpm/swtpm_nvstore_linear.c:111-468 | with blobs up to 128 MiB no run is cut short while the file is mapped |
| LinearStore.LoadsLastStored | src/swtpm/swtpm_nvstore_linear.c:313-442 | in every run a name loads what was last stored under it |
| LinearStore.DeletedIsAbsent | src/swtpm/swtpm_nvstore_linear.c:313-468 | in every run a deleted name is absent until the next store |
| LinearStore.StepElsewhere | src/swtpm/swtpm_nvstore_linear.c:111-468 | no call on another name, failing ones included, changes what a name loads |
| LinearStore.AlwaysRoom | src/swtpm/swtpm_nvstore_linear.c:118-141 | fifteen sections of at most 128 MiB always stay within 32 bits |
| NvStore.Nvram.StoreData | src/swtpm/swtpm_nvstore.c:373-448 | after success the name loads the plaintext, through the file format and the store; after a failure it has the new, the old or no state; other names keep theirs in either case; exactly when it succeeds, and exactly when the file is unmapped afterwards, so that no name loads |
| NvStore.Nvram.LoadData | src/swtpm/swtpm_nvstore.c:298-367 | while the file is mapped, returns the abstract plaintext of the name |
| NvStore.Nvram.DeleteName | src/swtpm/swtpm_nvstore.c:451-461 | the name then has no state, other names keep theirs; the return code is that of the backend; exactly when the file is unmapped afterwards |
| NvStore.Nvram.Run | src/swtpm/swtpm_nvstore.c:298-461 | every run of stores, deletions and loads, with any IVs and through all failures, answers as a map from name to plaintext does; it is cut short only by a store that 32-bit offsets cannot address or by a lost mapping |
| NvStore.LoadsLastStored | src/swtpm/swtpm_nvstore.c:298-448 | in every such run, after a successful store and until the next change, the name has the plaintext |
| NvStore.LoadAnswersLastStored | src/swtpm/swtpm_nvstore.c:298-448 | in every such run, a load answers with the plaintext of the last successful store |
| NvStore.RunStaysReadable | src/swtpm/swtpm_nvstore.c:298-461 | no run, failures included, makes a name load anything but a plaintext stored under some name or there before, or TPM_RETRY |
| DirBackend.StepKeepsInv | src/swtpm/swtpm_nvstore_dir.c:315-582 | every system call, succeeding or failing, and every crash keeps a complete acceptable content on disk; only a store begun on a torn permanent file may not |
| DirBackend.RunKeepsInv | src/swtpm/swtpm_nvstore_dir.c:315-582 | so does every run without such a store, runs that leave a torn file and restart included |
| DirBackend.RestartRecovers | src/swtpm/tpmlib.c:295-315 | an undisturbed start ends running on the authoritative content in full |
| DirBackend.CrashRecovery | src/swtpm/swtpm_nvstore_dir.c:315-582 | from every state of every such run: crash, restart, and the permanent file is the last completed store or one begun since |
| DirBackend.StoreKeepsContentIff | src/swtpm/swtpm_nvstore_dir.c:315-413 | from every running state, the empty disk included, a store keeps some complete content through all failures and crashes if and only if there is one to begin with and the permanent file is not torn |
| DirBackend.TornFileOverwritesBackup | src/swtpm/swtpm_nvstore_dir.c:343-376 | the run that loses both copies: a failed write, unlink and rename, and then the next store |
| DirBackend.FirstStoreIsUnprotected | src/swtpm/swtpm_nvstore_dir.c:343-376 | the very first store has no backup; torn by a crash it keeps the TPM from starting |
| DirBackend.SwapsFiles | src/swtpm/swtpm_nvstore_dir.c:504-582 | an undisturbed RestoreBackup exchanges the permanent file and the backup |
| DirBackend.RestoreBackupIsInvolution | src/swtpm/swtpm_nvstore_dir.c:494-582 | a second call restores both files, whatever a crash left under the temporary name |
| DirBackend.FailedRestoreReverts | src/swtpm/swtpm_nvstore_dir.c:540-582 | if one of the renames fails and the reverting ones succeed, both files are as before and the call fails |
| DirBackend.RestoreLosesNothing | src/swtpm/swtpm_nvstore_dir.c:504-582 | at every step, failures and crashes included, both contents are on disk under one of the three names |
| DirProcess.Process.RestoreBackupPreStart | src/swtpm/swtpm_nvstore_dir.c:457-492 | the code takes exactly the steps of the step machine |
| DirProcess.Process.RestoreBackup | src/swtpm/swtpm_nvstore_dir.c:504-582 | so does this code, with every reverting rename |
| DirProcess.Process.TpmlibStart | src/swtpm/tpmlib.c:295-315 | so does the start: initialize, once more with the backup, and back if that fails too |
| DirProcess.Process.WriteFull | src/swtpm/utils.c:278-300 | partial writes leave a growing prefix, and success means all of the data |
| DirProcess.Process.FileWrite | src/swtpm/utils.c:421-466 | on success the file holds the data; a failed write or sync was followed by an unlink |
| DirProcess.Process.StoreData | src/swtpm/swtpm_nvstore_dir.c:315-378 | on success the permanent file holds the data; a failure is one of the step machine, with nothing skipped |
| DirProcess.Process.Restart | src/swtpm/tpmlib.c:279-315 | a new process on the disk that any crash left stands before its start |
| DirProcess.Process.Live | src/swtpm/swtpm_nvstore_dir.c:315-582 | any number of lives, each a start and stores cut off by a crash anywhere: while no store begins on a torn file, the disk has the last completed store or one begun since in full |
| DirProcess.DiskRecovers | src/swtpm/swtpm_nvstore_dir.c:315-582 | wherever this code is or crashed, in a start as well as in a store, its disk recovers to the last completed store or one begun since |
| CrashSafety.StoredFileIsStorable | src/swtpm/swtpm_nvstore.c:298-431 | files written by StoreData load in full and in no part |
| CrashSafety.StateSurvivesCrash | src/swtpm/swtpm_nvstore_dir.c:315-582 | after a crash anywhere and a restart, LoadData returns the state of the last completed store or of one begun since |
| CuseTransfer.CuseTpm.CachedStateblobLoad | src/swtpm/cuse_tpm.c:436-469 | the cache becomes the new snapshot, or empty on failure; an unknown type leaves it alone; the volatile state is stored for the snapshot and gone afterwards |
| CuseTransfer.CuseTpm.GetStateblob | src/swtpm/cuse_tpm.c:900-970 | the piece of the snapshot at the offset, its total length, and the next transfer state |
| CuseTransfer.CuseTpm.ReadStateblob | src/swtpm/cuse_tpm.c:716-737 | the next bytes of the snapshot; a short read returns to command mode |
| CuseTransfer.CuseTpm.FetchByIoctls | src/swtpm/cuse_tpm.c:384-502 | repeated ioctls collect exactly the one snapshot and end in command mode |
| CuseTransfer.CuseTpm.FetchByReads | src/swtpm/cuse_tpm.c:716-766 | one ioctl and reads of any positive sizes collect a prefix, and all of it once command mode is back |
| CuseTransfer.CuseTpm.SetStateblobAppend | src/swtpm/cuse_tpm.c:780-848 | pieces accumulate under the type cut to 8 bits; the last one calls SetStateBlob once and empties the accumulator |
| CuseTransfer.CuseTpm.SetStateblob | src/swtpm/cuse_tpm.c:856-888 | a full packet accumulates, a short one delivers, an empty first one opens, an oversized one is refused |
| CuseTransfer.CuseTpm.WriteStateblob | src/swtpm/cuse_tpm.c:984-998 | a non-empty write accumulates, an empty one delivers |
| CuseTransfer.CuseTpm.SendByPackets | src/swtpm/cuse_tpm.c:780-888 | exactly one SetStateBlob call, with what an aborted transfer of the type left pending and then the blob |
| CuseTransfer.CuseTpm.SendByWrites | src/swtpm/cuse_tpm.c:780-998 | without a pending transfer, exactly one call with the concatenation of the pieces |
| SocketTransfer.ReceiveState | src/swtpm/ctrlchannel.c:233-315 | SetStateBlob is reached if and only if the data add up to the announced length, however they are split; never on overrun, early end or a failing read |
| SocketTransfer.CoversIsUnique | src/swtpm/ctrlchannel.c:273-293 | there is only one number of reads at which that can happen |
| Migration.CodecRoundTrip | src/swtpm/swtpm_nvstore.c:1165-1372 | get and set as a codec: the round trip for every key configuration |
| Migration.MigrateByIoctls | src/swtpm/cuse_tpm.c:780-970 | fetched by ioctls and sent by packets, the plaintext that StoreData wrote to a file at the source is set at the destination, once |
| Migration.MigrateByReadAndWrite | src/swtpm/cuse_tpm.c:716-998 | the same with reads and writes of unrelated sizes, as soon as the reads reach the end of the blob |
| Migration.ReturnState | src/swtpm/ctrlchannel.c:156-231 | the response is the blob, serialized for this request from the stored files, from the offset on; its length fields announce that part; a failure sends none; the volatile state is stored for the request and gone afterwards |
| Migration.SendOverSocket | src/swtpm/ctrlchannel.c:233-315 | a blob cut into a first packet and reads of any positive sizes is received whole |
| Migration.MigrateOverSocket | src/swtpm/ctrlchannel.c:156-315 | the same from control channel to control channel, for any split |
| Migration.FetchContinuesIff | src/swtpm/ctrlchannel.c:177-197 | a request at a later offset continues the first, whatever the IVs, if and only if neither layer is encrypted |
| Migration.OtherIvBreaks | src/swtpm/ctrlchannel.c:177-197 | two requests with different outermost IVs never fit together, at any offset up to the plaintext length |
| StorageLock.Server.LockDir | src/swtpm/swtpm_nvstore_dir.c:113-171 | succeeds if and only if the lock is held already or one of the first 1 + retries attempts is granted; a failure holds nothing |
| StorageLock.Server.LockNvram | src/swtpm/swtpm_nvstore.c:216-235 | success without locking, TPM_RETRY without a backend, else the backend's answer |
| StorageLock.Server.UnlockNvram | src/swtpm/mainloop.c:109-116 | the lock is given up and retries are armed; there is a backend to call |
| StorageLock.Server.EnsureLockedStorage | src/swtpm/mainloop.c:88-107 | result, flags and lock are those of the state machine, TPM_RETRY without a backend included |
| StorageLock.Server.TpmlibStart | src/swtpm/tpmlib.c:279-352 | exactly when the start succeeds, and that success means a backend and, if asked for, the lock |
| StorageLock.Server.Init | src/swtpm/ctrlchannel.c:610-639 | a restart, a failed one and one with the lock deferred take the step of the state machine |
| StorageLock.Server.DataCommand | src/swtpm/mainloop.c:296-364 | the data path takes the step of the state machine |
| StorageLock.Server.Handle | src/swtpm/ctrlchannel.c:610-962 | so does every control command |
| StorageLock.Server.Run | src/swtpm/mainloop.c:197-375 | the main loop is a run of the state machine, and keeps what holds of all runs |
| StorageLock.EnsuredIsTrue | src/swtpm/mainloop.c:88-107 | with a running TPM and locking, true means that the lock is held, and false that it is not |
| StorageLock.NextKeepsInv | src/swtpm/ctrlchannel.c:610-962 | every command keeps the invariant that running and storage_locked imply the lock, and running a backend |
| StorageLock.RunHoldsLock | src/swtpm/mainloop.c:296-364 | in every run with locking, every data command that reaches TPMLIB_Process has the lock held |
| StorageLock.RefusedOnlyWithoutLock | src/swtpm/mainloop.c:296-364 | the server gives up on a command exactly if the lock is not held and no attempt is granted; otherwise the command is processed |
| StorageLock.StateWithoutLockIff | src/swtpm/ctrlchannel.c:831-844 | a state blob is accepted without the lock if and only if the flag is stale or there is no backend and none can be opened |
| StorageLock.FailedStartLeavesFlag | src/swtpm/ctrlchannel.c:624-634 | a start that could not get the lock leaves the flag set, and the next SET_STATEBLOB goes without the lock |
| StorageLock.PairIsExclusive | src/swtpm/mainloop.c:88-116 | two servers on the same storage, in every interleaving, never both hold the lock, and each command is processed by its holder alone |
| WorkerExclusion.HolderKeepsInv | src/swtpm/cuse_tpm.c:1008-1081 | each step of the thread that holds the file lock keeps the busy flag, pool and counters consistent |
| WorkerExclusion.WorkerKeepsInv | src/swtpm/cuse_tpm.c:509-527 | so does each step of the worker |
| WorkerExclusion.RunKeepsInv | src/swtpm/threadpool.c:75-150 | so does every interleaving |
| WorkerExclusion.MutualExclusion | src/swtpm/cuse_tpm.c:1158-1460 | in every reachable state at most one thread, worker included, is inside libtpms: processing, starting, terminating, transferring state, or changing the buffer size, which does not wait |
| WorkerExclusion.TerminateAfterLastCommand | src/swtpm/cuse_tpm.c:609-619 | TPMLIB_Terminate runs only when every pushed command is completed, and freeing a pool never drops one |
| WorkerExclusion.PushFindsIdlePool | src/swtpm/cuse_tpm.c:1029-1066 | a command is pushed only to an existing pool with nothing to do |
| Options.ParseToken | src/swtpm/options.c:247-317 | the terminators written in place leave the token and the rest as strings, and nothing before them changes |
| Options.FindClosing | src/swtpm/options.c:267-285 | the brace counter finds the closing brace |
| Options.ClosingIff | src/swtpm/options.c:267-285 | that brace is where the balance of braces first vanishes |
| Options.ParseSplitsIff | src/swtpm/options.c:247-317 | the tokenizer stops at a comma exactly behind a well-formed token |
| Options.ParseEndsIff | src/swtpm/options.c:291-313 | it takes all that is left exactly if there is no comma or the map closes at the end |
| Options.ParseOptions | src/swtpm/options.c:356-388 | the token loop on a copy of the string yields the tokenization |
| Options.TokenizeIff | src/swtpm/options.c:247-388 | a string tokenizes to a list if and only if it is the list joined by commas and the tokens are well formed |
| Strv.Remove | src/swtpm/utils.c:833-855 | the vector becomes its entries that do not match, in order, and the count is right |
| Strv.KeptIff | src/swtpm/utils.c:833-855 | exactly the non-matching entries remain |
| Strv.Dedup | src/swtpm/utils.c:870-920 | the vector becomes its entries without a later match, in order, and the count is right |
| Strv.DedupedHasNoDuplicates | src/swtpm/utils.c:870-920 | afterwards no entry has a later match |
| Strv.FindPrefix | src/swtpm/utils.c:790-799 | the first entry that agrees in that many characters |
| Strv.StrtoulOfDecimal | src/swtpm/check_algos.c:697-719 | strtoul reads back what %u prints |
| FipsProfile.RemoveAlgorithms | src/swtpm/check_algos.c:653-729 | the in-place procedure computes the adjusted list, with its failures |
| FipsProfile.RowsAreFilter | src/swtpm/check_algos.c:662-679 | the removal loop filters by all rows of the table |
| FipsProfile.DedupedAtMostOne | src/swtpm/check_algos.c:681-682 | afterwards at most one entry has a given key |
| FipsProfile.ForcedAdjustment | src/swtpm/check_algos.c:653-729 | no disabled algorithm or its size entry is left, exactly one large enough entry for each key size, and the other entries are exactly the allowed ones without a later match, in order |
| FipsProfile.ForcedAdjustmentFailsIff | src/swtpm/check_algos.c:697-707 | it fails if and only if a surviving key size entry is not a number |
| DerHeader.WriteOctets | src/swtpm_cert/ek-cert.c:908-915 | the backwards loop writes the minimal octets of the number |
| DerHeader.PrependSanHeader | src/swtpm_cert/ek-cert.c:895-952 | a SEQUENCE around a context tag 4 element around the payload; the index stays in the 20-byte buffer; the size field is 32 bits wide |
| DerHeader.HeaderDecodes | src/swtpm_cert/ek-cert.c:895-952 | decoding per section 8.1.3 of X.690 gives back exactly the payload |
| DerHeader.LengthIsMinimal | src/swtpm_cert/ek-cert.c:916-921 | no encoding of the same length is shorter, per section 10.1 of X.690 |

## Left out

- LinearStore.Store.StoreData: asks for 1 to 2^31 bytes, for a new section that 32-bit offsets can address, and for a mapped buffer, because the original's unsigned arithmetic would wrap and its pointer would dangle beyond; a stored file is never empty, as it has a header.
- NvStore.Nvram.Run: asks for states whose files have at most 2^31 bytes and for IVs as long as RollAndSetGlobalIvec makes them, as the store and the format do.
- LinearStore.Store.Resize: asks for a mapped buffer; new space is zero; which ranges reach the medium is not modelled.
- LinearStore.Store.Format: opening an existing store and checking its magic and version is not modelled.
- DirBackend.CrashRecovery: a crash ends the process, not the machine, so fsync orders nothing; access() and reading answer truthfully; a store begun on a torn permanent file, which DirBackend.StoreKeepsContentIff shows to be fatal, is excluded.
- DirProcess.Process.MainInit: TPMLIB_MainInit fails exactly if preparing the backend or loading the permanent file fails; what libtpms does with the loaded bytes is not modelled.
- DirProcess.Process.StoreData: only the permanent state in backup mode; the temporary-file path of other states is not modelled.
- CuseTransfer.CuseTpm.CachedStateblobLoad: that the cached blob can be older than the stored one is not ruled out, as in the original; the unlocking after a savestate blob belongs to StorageLock.
- CuseTransfer.CuseTpm.SetStateblobAppend: memory allocation succeeds.
- CuseTransfer.CuseTpm.SendByWrites: needs that no transfer of the type is pending; an aborted transfer does leave one.
- StorageLock.RunHoldsLock: the initial Startup, the automatic TPM2_Shutdown and STORE_VOLATILE do not ask for the lock and are not claimed to have it; SET_STATEBLOB has it exactly as StorageLock.StateWithoutLockIff says.
- StorageLock.PairIsExclusive: a lock attempt with its retries is one step.
- WorkerExclusion.MutualExclusion: TPMLIB_CancelCommand, TPMLIB_GetInfo and a TPMLIB_SetBufferSize that only asks for the size, which do not wait for the worker, do not count as being inside; the request and response globals are not modelled.
- Options.ParseOptions: looking up each token in the option table and parsing its value are not modelled.
- FipsProfile.RemoveAlgorithms: whether OpenSSL finds an algorithm disabled is a parameter; asprintf succeeds; an unsigned long has 64 bits.
- StateBlob.SetStateBlobIff: what TPMLIB_SetState makes of the payload is not modelled.
- OpenSSL and libtpms: parameters with stated hypotheses.
- Sockets, poll, signals, daemonizing, seccomp, pid files, logging, getopt, JSON and certificate building: input and output or library calls without a hard property.
- pcap.c and the swtpm_ioctl client: would only add easy members.
