# Firmware slot manager

This project models the firmware slot manager of the device server
(`server/api/firmware/firmware.ts`). Each device keeps at most two firmware
records: one `current` and one `previous`. Each record names a `.bin` file in
the firmware directory. The model holds two pieces of state:

- the firmware collection, a sequence of records in the database's natural
  order;
- the names of the files present in the firmware directory.

It covers the five routes and the upload middleware's rules:

- **upload**: the middleware accepts only `.bin` files and stores each one
  under 16 random bytes in hex plus `.bin`. The handler then validates the
  request. When the device has a `current` record, it deletes the `previous`
  record and its file and demotes the `current` one. Finally it creates the
  new `current` record.
- **latest**: the `current` slot, as a version and a download URL.
- **rollback**: the `/firmware/current` route. It answers with the
  `previous` slot, whatever its path suggests.
- **list**: the device's records, newest first.
- **delete**: removes a record found by id and device together, plus its
  file.

Modules:

- `Wrappers`: `Option`.
- `FirmwareNames`: the stored file name, and the extension filter. The
  filter follows Node's POSIX `path.extname`.
- `FirmwareRecords`:
  - the record datatype;
  - the database operations the handlers use: `findOne`, `deleteOne` and
    `updateOne` act on the first match, `create` appends;
  - `Install`, the effect of a successful upload on the records, and
    `Withdraw`, the effect of a delete;
  - the newest-first sort.
- `FirmwareSlots`: lemmas about the slot structure before and after
  `Install` and `Withdraw`.
- `FirmwareRoutes`: the routes. `FirmwareStore` is a class whose `Upload`
  and `Delete` methods change the collection and the file set step by step,
  as the handlers do. The read-only routes are functions.

Record ids are drawn from a counter (`nextId`), which stands in for MongoDB's
ObjectId. The `uploaded` timestamp is an integer supplied by the caller.

The code decides three points differently from what a reader of the route
descriptions might expect. The model follows the code:

- The old `previous` record is deleted only when a `current` record exists
  (firmware.ts:69-80). An upload to a device that has a `previous` record but
  no `current` one keeps that `previous` record. The device then has two
  records: a `current` one and a `previous` one.
- A file refused by the filter never reaches the handler. The middleware
  passes an `Error` to Express, whose default handler answers 500 with the
  error's message. The model returns `Error(500, "Only .bin files are allowed")`.
- A missing file is checked first, then the version, then the device. A
  file that passed the filter is already on disk when the version or device
  check fails, so the handler unlinks it.

## Model

| member | source | states |
|---|---|---|
| FirmwareNames.StoredName | server/api/firmware/firmware.ts:21-24 | a stored name is 36 characters long: 32 hex digits followed by ".bin" |
| FirmwareNames.UnhexHex | server/api/firmware/firmware.ts:22 | hex encoding of the random bytes is lossless: decoding it gives back the bytes |
| FirmwareNames.StoredNameInjective | server/api/firmware/firmware.ts:22-23 | different random bytes give different stored names |
| FirmwareNames.StoredNameAccepted | server/api/firmware/firmware.ts:21-35 | every stored name would itself pass the ".bin" filter |
| FirmwareNames.Extname | server/api/firmware/firmware.ts:30 | the extension is the last path component's suffix from its last dot, so a dot followed by no further dot; it is empty exactly when that component has no dot, has its only dot in front, or is ".." |
| FirmwareNames.AcceptFile | server/api/firmware/firmware.ts:29-35 | the filter's decision; AcceptFileIff and AcceptPlainName characterise it, and StoredNameAccepted shows the stored names pass it |
| FirmwareNames.AcceptFileIff | server/api/firmware/firmware.ts:29-35 | a file is accepted exactly when the last path component is longer than 4 characters and its last 4 lower-case to ".bin" |
| FirmwareNames.AcceptPlainName | server/api/firmware/firmware.ts:29-35 | for a name without '/', accepted exactly when it is longer than 4 characters and ends, lower-cased, in ".bin" |
| FirmwareRecords.FindOne | server/api/firmware/firmware.ts:66 | findOne answers with the first record in natural order that matches the filter, or nothing when none matches |
| FirmwareRecords.Slot | server/api/firmware/firmware.ts:66-71 | a slot lookup finds a record exactly when one with that device and status exists, and the one it finds has that device and status |
| FirmwareRecords.DeleteOne | server/api/firmware/firmware.ts:79 | deleteOne by id; InstallRotate and WithdrawRemovesOne show it removes the one record with that id and keeps the order of the others |
| FirmwareRecords.UpdateStatus | server/api/firmware/firmware.ts:83-86 | updateOne by id; InstallSecond and InstallRotate show it demotes the current record in place |
| FirmwareRecords.Install | server/api/firmware/firmware.ts:65-98 | the records after a successful upload; InstallSlots, InstallKeepsBounds, InstallOtherDevices, InstallEvicts, InstallKeepsIds and InstallBacked state its properties |
| FirmwareRecords.Withdraw | server/api/firmware/firmware.ts:191-203 | the records after a delete; WithdrawRemovesOne, WithdrawSlots, WithdrawKeepsBound, WithdrawKeepsIds and WithdrawBacked state its properties |
| FirmwareRecords.RemoveAt | server/api/firmware/firmware.ts:79 | removing one record keeps every other record in its order |
| FirmwareRecords.InsertNewestSorts | server/api/firmware/firmware.ts:178 | inserting into a newest-first list keeps it newest first and adds exactly that record |
| FirmwareRecords.SortNewestFirstSorts | server/api/firmware/firmware.ts:178 | sorting by uploaded descending gives a newest-first permutation of its input |
| FirmwareSlots.CountZero | server/api/firmware/firmware.ts:66 | findOne finds nothing exactly when no record matches |
| FirmwareSlots.FindOneAt | server/api/firmware/firmware.ts:66-71 | when at most one record matches, findOne finds that record |
| FirmwareSlots.OfDeviceMembers | server/api/firmware/firmware.ts:178 | find({deviceID}) holds exactly the device's records |
| FirmwareSlots.DeviceRecords | server/db/schemes.ts:33-37 | with two statuses, a device's record count is its current count plus its previous count |
| FirmwareSlots.InstallSecond | server/api/firmware/firmware.ts:82-98 | with a current but no previous record, the current one is demoted in place and the new one appended |
| FirmwareSlots.InstallRotate | server/api/firmware/firmware.ts:70-98 | with both slots filled, the previous record is removed, the current one demoted in place and the new one appended |
| FirmwareSlots.InstallSlots | server/api/firmware/firmware.ts:65-98 | from at most one record per slot, an upload leaves exactly one current record (the new one), at most one previous record (the demoted current one, or the untouched previous one when there was no current), and at most two records |
| FirmwareSlots.CountOfDevice | server/api/firmware/firmware.ts:66-71 | a device's slot counts depend only on that device's own records |
| FirmwareSlots.InstallKeepsBounds | server/api/firmware/firmware.ts:65-98 | if every device has at most one current and at most one previous record, this still holds for every device after any upload |
| FirmwareSlots.InstallOtherDevices | server/api/firmware/firmware.ts:66-98 | an upload leaves other devices' records unchanged, in order |
| FirmwareSlots.InstallEvicts | server/api/firmware/firmware.ts:70-80 | with both slots filled, the old previous record is gone after an upload |
| FirmwareSlots.InstallKeepsIds | server/api/firmware/firmware.ts:90-98 | an upload keeps record ids unique |
| FirmwareSlots.InstallKeepsOrder | server/api/firmware/firmware.ts:82-98 | when the new record is the latest upload, the previous slot is never newer than the current one |
| FirmwareSlots.InstallBacked | server/api/firmware/firmware.ts:72-98 | if every record's file exists and no two records share a file, this still holds after an upload, with the new file added and the evicted file removed |
| FirmwareSlots.WithdrawRemovesOne | server/api/firmware/firmware.ts:191-203 | delete removes the record found by id and device, and no record with that id remains; with no match nothing changes |
| FirmwareSlots.SlotsAfterRemove | server/api/firmware/firmware.ts:203 | removing one of a device's records empties its slot and leaves the other slot as it was |
| FirmwareSlots.WithdrawSlots | server/api/firmware/firmware.ts:187-205 | deleting a record empties its slot; the other slot is unchanged, and the previous record is not promoted |
| FirmwareSlots.WithdrawKeepsBound | server/api/firmware/firmware.ts:187-205 | delete keeps the one-record-per-slot bound of every device |
| FirmwareSlots.WithdrawKeepsIds | server/api/firmware/firmware.ts:203 | delete keeps ids unique |
| FirmwareSlots.WithdrawBacked | server/api/firmware/firmware.ts:196-203 | after delete, every remaining record still has its file, without the deleted record's file |
| FirmwareRoutes.HasVersion | server/api/firmware/firmware.ts:52 | the `!version` test: a missing or empty version fails; Upload's ensures give the 400 answer for it |
| FirmwareRoutes.DescriptionOrEmpty | server/api/firmware/firmware.ts:93 | the given description, or the empty string when none or an empty one was given; Upload's success ensures carry it into the new record and the reply |
| FirmwareRoutes.NewRecord | server/api/firmware/firmware.ts:90-98 | the created record; Upload's success ensures state it is the device's one current record, with the stored name and size |
| FirmwareRoutes.Delivery | server/api/firmware/firmware.ts:117-172 | the answer of the latest and rollback routes; Latest's and Rollback's ensures state it |
| FirmwareRoutes.FirmwareStore.constructor | server/api/firmware/firmware.ts:9-14 | the store starts empty, so the store invariant (distinct ids, and at most one current and one previous record per device) holds from the start |
| FirmwareRoutes.FirmwareStore.Upload | server/api/firmware/firmware.ts:43-114 | no file: 400 and no change. Filter refusal: 500 and no change. Missing or empty version: 400. Unknown device: 404. Both of those remove the stored file and leave the records alone. Success: the records are Install's result, and the device's current record is the new one, holding the given version, the description or "", the stored name and the size. The device has at most two records. The file set gains the new file and loses the evicted one. The reply summarises the new record. The store invariant is kept, so every device keeps at most one current and one previous record after any sequence of calls. Other devices are untouched, and files stay consistent with the records |
| FirmwareRoutes.FirmwareStore.Store | server/api/firmware/firmware.ts:65-98 | evict, demote and create, step by step, equal Install; only the evicted file is unlinked; the new record is the device's current one; the store invariant is kept |
| FirmwareRoutes.FirmwareStore.Latest | server/api/firmware/firmware.ts:117-143 | available exactly when the device has a current record; otherwise version and url are null; when available, that record's version and a URL ending in /firmware/ followed by its file name |
| FirmwareRoutes.FirmwareStore.Rollback | server/api/firmware/firmware.ts:146-172 | the same answer for the device's previous record |
| FirmwareRoutes.FirmwareStore.List | server/api/firmware/firmware.ts:175-184 | newest first, a permutation of the device's records, and a record is in it exactly when it is in the collection with that device |
| FirmwareRoutes.FirmwareStore.Delete | server/api/firmware/firmware.ts:187-209 | no record with that id on that device: 404 and no change. Otherwise the record is removed and all others keep their order, its file is removed, every device keeps the slot bound, files stay consistent, and the other slot is not promoted |

## Left out

- Express routing, the `authHandler` middleware, and the request and response
  objects. Replies are a `Reply` datatype carrying the status and message.
  `req.protocol` and the `host` header are parameters of the URL.
- The `catch` blocks answering 500 when the database or the file system
  throws. The in-memory operations cannot fail. This covers a malformed
  firmware id that mongoose cannot cast. The model's ids are naturals, so
  there is no such id.
- Multer's 10 MB limit (firmware.ts:37): `Upload` requires the size to be
  within the limit. Oversized uploads, a wrong form field name and streaming
  writes are not modelled.
- `crypto.randomBytes` (firmware.ts:22): the 16 bytes are an input of
  `Upload`. The model does not claim that two draws differ. If a draw
  repeats a stored name, the new file replaces the old one on disk, as
  multer does.
- `new Date()`: the timestamp is an integer parameter.
- Concurrent requests: the model is sequential.
- MongoDB's order for records with equal `uploaded` times: the model's sort
  keeps natural order among them.
- `String.prototype.toLowerCase` is modelled for ASCII letters only. The
  result is exact for the ".bin" test: no other character lower-cases to a
  single character of ".bin".
- The directory creation at start-up (firmware.ts:11-14) appears only as the
  empty initial store.
- The device registry is not part of this model. `Upload` takes the set of
  known device ids as a parameter.
- server/api/dashboard/dashboard.ts, server/index.ts and
  mongo-scripts/init-mongo.js are not part of this model. server/db/schemes.ts
  only shapes the record datatype.
- FirmwareRoutes.FirmwareStore.Upload: file consistency (every record's file
  exists, and no two records share one) is promised only when it held before
  the call and the stored name is new. It is not part of the store
  invariant, because the random draw is an input and may repeat a stored
  name.
