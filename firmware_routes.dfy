/**
 * The firmware routes of the device server, over an in-memory store: the
 * record collection and the set of file names present in the firmware
 * directory. Upload and delete change the store step by step as the route
 * handlers do; the latest, rollback and list routes only read it.
 */
module FirmwareRoutes {
  import opened Wrappers
  import opened FirmwareNames
  import opened FirmwareRecords
  import opened FirmwareSlots

  /**
   * A file part as the upload middleware receives it: the client's file
   * name, the random bytes drawn for its stored name, and its length.
   */
  datatype IncomingFile = IncomingFile(originalName: string, random: seq<Byte>, size: nat)

  /** What a successful upload reports back. */
  datatype Summary = Summary(id: nat, version: string, description: string, size: nat, uploaded: int)

  /** A route's answer: a success payload or an HTTP error status with its message. */
  datatype Reply<T> = Success(value: T) | Error(status: nat, message: string)

  /** The answer of the latest and rollback routes; null is None. */
  datatype DeliveryInfo = DeliveryInfo(version: Option<string>, url: Option<string>, available: bool)

  /** The handler's `!version` test fails for a missing and for an empty version. */
  predicate HasVersion(version: Option<string>) {
    version.Some? && version.value != ""
  }

  /** `description || ''`. */
  function DescriptionOrEmpty(description: Option<string>): string {
    match description
    case None => ""
    case Some(text) => text
  }

  /** The record a successful upload creates. */
  function NewRecord(id: nat, deviceID: string, version: string, description: Option<string>,
                     file: IncomingFile, now: int): Firmware
    requires |file.random| == RandomBytes
  {
    Firmware(id, deviceID, version, DescriptionOrEmpty(description), StoredName(file.random),
             file.size, now, Current)
  }

  function FirmwareUrl(protocol: string, host: string, filename: string): string {
    protocol + "://" + host + "/firmware/" + filename
  }

  predicate EndsWith(s: string, suffix: string) {
    |suffix| <= |s| && s[|s| - |suffix|..] == suffix
  }

  /** The delivery answer for one slot. */
  function Delivery(slot: Option<Firmware>, protocol: string, host: string): DeliveryInfo {
    match slot
    case None => DeliveryInfo(None, None, false)
    case Some(f) => DeliveryInfo(Some(f.version), Some(FirmwareUrl(protocol, host, f.filename)), true)
  }

  class FirmwareStore {
    /** The firmware collection, in natural order. */
    var records: seq<Firmware>
    /** The names of the files in the firmware directory. */
    var files: set<string>
    /** The id the next created record receives. */
    var nextId: nat

    /**
     * Ids are distinct and below the counter, and every device holds at most
     * one Current and at most one Previous record.
     */
    ghost predicate Valid()
      reads this
    {
      UniqueIds(records) && IdsBelow(records, nextId) && forall d :: SlotBound(records, d)
    }

    /** Start-up: the firmware directory is created when missing; the collection is empty. */
    constructor ()
      ensures Valid() && records == [] && files == {} && nextId == 0
    {
      records := [];
      files := {};
      nextId := 0;
    }

    /**
     * POST /api/devices/:deviceID/firmware/upload. The middleware runs first:
     * it refuses a file whose extension is not ".bin", and otherwise stores
     * the file under a random name before the handler runs.
     */
    method Upload(deviceID: string, version: Option<string>, description: Option<string>,
                  file: Option<IncomingFile>, knownDevices: set<string>, now: int)
      returns (reply: Reply<Summary>)
      requires Valid()
      requires file.Some? ==> |file.value.random| == RandomBytes && file.value.size <= MaxFileSize
      modifies this
      ensures Valid()
      ensures file.None? ==>
        reply == Error(400, "No file uploaded") && unchanged(this)
      ensures file.Some? && !AcceptFile(file.value.originalName) ==>
        reply == Error(500, "Only .bin files are allowed") && unchanged(this)
      ensures file.Some? && AcceptFile(file.value.originalName) && !HasVersion(version) ==>
        && reply == Error(400, "Version is required")
        && records == old(records) && nextId == old(nextId)
        && files == old(files) - {StoredName(file.value.random)}
      ensures file.Some? && AcceptFile(file.value.originalName) && HasVersion(version)
              && deviceID !in knownDevices ==>
        && reply == Error(404, "Device not found")
        && records == old(records) && nextId == old(nextId)
        && files == old(files) - {StoredName(file.value.random)}
      ensures file.Some? && AcceptFile(file.value.originalName) && HasVersion(version)
              && deviceID in knownDevices ==>
        var rec := NewRecord(old(nextId), deviceID, version.value, description, file.value, now);
        && reply == Success(Summary(rec.id, rec.version, rec.description, rec.size, rec.uploaded))
        && records == Install(old(records), rec)
        && files == (old(files) + {rec.filename}) - Evicted(old(records), deviceID)
        && nextId == old(nextId) + 1
        && Slot(records, deviceID, Current) == Some(rec)
        && |OfDevice(records, deviceID)| <= 2
      // a rejected upload leaves no trace when its stored name was new
      ensures reply.Error? && file.Some? && StoredName(file.value.random) !in old(files) ==>
        records == old(records) && files == old(files)
      ensures forall other :: other != deviceID ==> OfDevice(records, other) == OfDevice(old(records), other)
      ensures reply.Success? && Backed(old(records), old(files)) && DistinctFiles(old(records))
              && StoredName(file.value.random) !in old(files) ==>
        Backed(records, files) && DistinctFiles(records)
    {
      if file.None? {
        return Error(400, "No file uploaded");
      }
      var incoming := file.value;
      if !AcceptFile(incoming.originalName) {
        return Error(500, "Only .bin files are allowed");
      }
      var name := StoredName(incoming.random);
      files := files + {name};

      if !HasVersion(version) {
        files := files - {name};
        return Error(400, "Version is required");
      }
      if deviceID !in knownDevices {
        files := files - {name};
        return Error(404, "Device not found");
      }

      var rec := NewRecord(nextId, deviceID, version.value, description, incoming, now);
      Store(rec);
      reply := Success(Summary(rec.id, rec.version, rec.description, rec.size, rec.uploaded));
    }

    /**
     * The record-keeping part of a successful upload: when the device has a
     * Current record, its Previous record and that record's file are deleted
     * and the Current record is demoted; then the new record is created.
     */
    method Store(rec: Firmware)
      requires Valid() && rec.id == nextId && rec.status == Current && rec.filename in files
      modifies this
      ensures Valid()
      ensures records == Install(old(records), rec)
      ensures files == old(files) - Evicted(old(records), rec.deviceID)
      ensures nextId == old(nextId) + 1
      ensures Slot(records, rec.deviceID, Current) == Some(rec)
      ensures |OfDevice(records, rec.deviceID)| <= 2
      ensures forall other :: other != rec.deviceID ==> OfDevice(records, other) == OfDevice(old(records), other)
      ensures Backed(old(records), old(files)) && DistinctFiles(old(records))
              && (forall i :: 0 <= i < |old(records)| ==> old(records)[i].filename != rec.filename) ==>
        Backed(records, files) && DistinctFiles(records)
    {
      var deviceID := rec.deviceID;
      ghost var before := records;
      var current := FindOne(records, BySlot(deviceID, Current));
      if current.Some? {
        var currentId := records[current.value].id;
        var previous := FindOne(records, BySlot(deviceID, Previous));
        if previous.Some? {
          var evicted := records[previous.value];
          assert Evicted(before, deviceID) == {evicted.filename};
          if evicted.filename in files {
            files := files - {evicted.filename};
          }
          assert files == old(files) - {evicted.filename};
          records := DeleteOne(records, ById(evicted.id));
        } else {
          assert Evicted(before, deviceID) == {};
          assert files == old(files) - {};
        }
        records := UpdateStatus(records, ById(currentId), Previous);
      } else {
        assert Evicted(before, deviceID) == {};
        assert files == old(files) - {};
      }
      records := records + [rec];
      InstallFacts(before, old(files), rec, nextId);
      nextId := nextId + 1;
    }

    /**
     * GET /api/devices/:deviceID/firmware/latest: the device's Current
     * record, as a version and a download URL.
     */
    function Latest(deviceID: string, protocol: string, host: string): (r: DeliveryInfo)
      reads this
      ensures r.available <==> exists i :: 0 <= i < |records| && Matches(records[i], BySlot(deviceID, Current))
      ensures !r.available ==> r.version.None? && r.url.None?
      ensures r.available ==>
        var f := Slot(records, deviceID, Current).value;
        && f in records && f.deviceID == deviceID && f.status == Current
        && r.version == Some(f.version)
        && r.url.Some? && EndsWith(r.url.value, "/firmware/" + f.filename)
    {
      Delivery(Slot(records, deviceID, Current), protocol, host)
    }

    /**
     * GET /api/devices/:deviceID/firmware/current: despite its path, the
     * device's Previous record, the rollback target.
     */
    function Rollback(deviceID: string, protocol: string, host: string): (r: DeliveryInfo)
      reads this
      ensures r.available <==> exists i :: 0 <= i < |records| && Matches(records[i], BySlot(deviceID, Previous))
      ensures !r.available ==> r.version.None? && r.url.None?
      ensures r.available ==>
        var f := Slot(records, deviceID, Previous).value;
        && f in records && f.deviceID == deviceID && f.status == Previous
        && r.version == Some(f.version)
        && r.url.Some? && EndsWith(r.url.value, "/firmware/" + f.filename)
    {
      Delivery(Slot(records, deviceID, Previous), protocol, host)
    }

    /** GET /api/devices/:deviceID/firmware: the device's records, newest first. */
    function List(deviceID: string): (r: seq<Firmware>)
      reads this
      ensures NewestFirst(r)
      ensures multiset(r) == multiset(OfDevice(records, deviceID))
      ensures forall f :: f in r <==> f in records && f.deviceID == deviceID
    {
      var r := ListNewestFirst(records, deviceID);
      OfDeviceMembers(records, deviceID);
      SortNewestFirstSorts(OfDevice(records, deviceID));
      assert forall f :: f in r <==> f in multiset(OfDevice(records, deviceID));
      r
    }

    /**
     * DELETE /api/devices/:deviceID/firmware/:firmwareId: the record is
     * looked up by id and device together; its file is removed when present,
     * then the record.
     */
    method Delete(deviceID: string, firmwareId: nat) returns (reply: Reply<()>)
      requires Valid()
      modifies this
      ensures Valid() && nextId == old(nextId)
      ensures records == Withdraw(old(records), deviceID, firmwareId)
      ensures var found := FindOne(old(records), ByIdOnDevice(firmwareId, deviceID));
        && (found.None? ==> reply == Error(404, "Firmware not found") && unchanged(this))
        && (found.Some? ==>
              && reply == Success(())
              && records == RemoveAt(old(records), found.value)
              && files == old(files) - {old(records)[found.value].filename})
      ensures forall d :: SlotBound(old(records), d) ==> SlotBound(records, d)
      ensures Backed(old(records), old(files)) && DistinctFiles(old(records)) ==>
        Backed(records, files) && DistinctFiles(records)
      ensures var found := FindOne(old(records), ByIdOnDevice(firmwareId, deviceID));
        found.Some? && SlotBound(old(records), deviceID) ==>
          var s := old(records)[found.value].status;
          && Slot(records, deviceID, s) == None
          && Slot(records, deviceID, Other(s)) == Slot(old(records), deviceID, Other(s))
    {
      var found := FindOne(records, ByIdOnDevice(firmwareId, deviceID));
      if found.None? {
        return Error(404, "Firmware not found");
      }
      var filename := records[found.value].filename;
      if filename in files {
        files := files - {filename};
      }
      assert files == old(files) - {filename};
      ghost var before := records;
      records := DeleteOne(records, ById(firmwareId));
      reply := Success(());
      WithdrawFacts(before, old(files), deviceID, firmwareId, nextId);
    }
  }
}
