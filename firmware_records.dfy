/**
 * The firmware record collection, held as a sequence in the store's natural
 * (insertion) order, and the queries and updates the routes issue against
 * it: findOne returns the first matching record, deleteOne removes the first
 * matching record, updateOne rewrites the status of the first matching record
 * and create appends.
 */
module FirmwareRecords {
  import opened Wrappers

  /** The two slots a record can occupy; a record is created as Current. */
  datatype Status = Current | Previous

  datatype Firmware = Firmware(
    id: nat,
    deviceID: string,
    version: string,
    description: string,
    filename: string,
    size: nat,
    uploaded: int,
    status: Status)

  /** The filters the routes pass to findOne, deleteOne and updateOne. */
  datatype Query =
    | BySlot(deviceID: string, status: Status)
    | ById(id: nat)
    | ByIdOnDevice(id: nat, deviceID: string)

  predicate Matches(f: Firmware, q: Query) {
    match q
    case BySlot(d, s) => f.deviceID == d && f.status == s
    case ById(id) => f.id == id
    case ByIdOnDevice(id, d) => f.id == id && f.deviceID == d
  }

  function Other(s: Status): Status {
    if s == Current then Previous else Current
  }

  // ---------------------------------------------------------------------
  // Invariants of the collection

  /** Record ids are distinct. */
  ghost predicate UniqueIds(rs: seq<Firmware>) {
    forall i, j :: 0 <= i < j < |rs| ==> rs[i].id != rs[j].id
  }

  /** Every id in the collection is below n (the next id to be handed out). */
  ghost predicate IdsBelow(rs: seq<Firmware>, n: nat) {
    forall i :: 0 <= i < |rs| ==> rs[i].id < n
  }

  /** Every record's file is in the firmware directory. */
  ghost predicate Backed(rs: seq<Firmware>, files: set<string>) {
    forall i :: 0 <= i < |rs| ==> rs[i].filename in files
  }

  /** No two records share a file. */
  ghost predicate DistinctFiles(rs: seq<Firmware>) {
    forall i, j :: 0 <= i < j < |rs| ==> rs[i].filename != rs[j].filename
  }

  /** Number of records matching q. */
  function Count(rs: seq<Firmware>, q: Query): nat {
    if rs == [] then 0
    else (if Matches(rs[0], q) then 1 else 0) + Count(rs[1..], q)
  }

  /** The two-slot bound of one device: at most one Current and at most one Previous. */
  ghost predicate SlotBound(rs: seq<Firmware>, d: string) {
    Count(rs, BySlot(d, Current)) <= 1 && Count(rs, BySlot(d, Previous)) <= 1
  }

  // ---------------------------------------------------------------------
  // Queries

  /** findOne: the index of the first record matching q. */
  function FindOne(rs: seq<Firmware>, q: Query): (r: Option<nat>)
    ensures r.Some? ==> r.value < |rs| && Matches(rs[r.value], q)
    ensures r.Some? ==> forall j :: 0 <= j < r.value ==> !Matches(rs[j], q)
    ensures r.None? ==> forall j :: 0 <= j < |rs| ==> !Matches(rs[j], q)
  {
    if rs == [] then None
    else if Matches(rs[0], q) then Some(0)
    else match FindOne(rs[1..], q)
      case None => None
      case Some(k) => Some(k + 1)
  }

  /** The record occupying a device's slot, if any. */
  function Slot(rs: seq<Firmware>, d: string, s: Status): (r: Option<Firmware>)
    ensures r.Some? <==> exists i :: 0 <= i < |rs| && Matches(rs[i], BySlot(d, s))
    ensures r.Some? ==> r.value in rs && r.value.deviceID == d && r.value.status == s
  {
    match FindOne(rs, BySlot(d, s))
    case None => None
    case Some(i) => Some(rs[i])
  }

  /** find({deviceID}): the records of one device, in natural order. */
  function OfDevice(rs: seq<Firmware>, d: string): seq<Firmware> {
    if rs == [] then []
    else (if rs[0].deviceID == d then [rs[0]] else []) + OfDevice(rs[1..], d)
  }

  // ---------------------------------------------------------------------
  // Updates

  function RemoveAt(rs: seq<Firmware>, i: nat): (r: seq<Firmware>)
    requires i < |rs|
    ensures |r| == |rs| - 1
    ensures forall j :: 0 <= j < i ==> r[j] == rs[j]
    ensures forall j :: i <= j < |r| ==> r[j] == rs[j + 1]
  {
    rs[..i] + rs[i + 1..]
  }

  /** deleteOne: drops the first record matching q, if there is one. */
  function DeleteOne(rs: seq<Firmware>, q: Query): seq<Firmware> {
    match FindOne(rs, q)
    case None => rs
    case Some(i) => RemoveAt(rs, i)
  }

  /** updateOne(q, {status}): sets the status of the first record matching q. */
  function UpdateStatus(rs: seq<Firmware>, q: Query, s: Status): seq<Firmware> {
    match FindOne(rs, q)
    case None => rs
    case Some(i) => rs[i := rs[i].(status := s)]
  }

  /**
   * The effect of a successful upload on the collection: only when the
   * device has a Current record is its Previous record (if any) deleted and
   * the Current record demoted; then the new record is created.
   */
  function Install(rs: seq<Firmware>, rec: Firmware): seq<Firmware> {
    var d := rec.deviceID;
    match FindOne(rs, BySlot(d, Current))
    case None => rs + [rec]
    case Some(c) =>
      var evicted :=
        match FindOne(rs, BySlot(d, Previous))
        case None => rs
        case Some(p) => DeleteOne(rs, ById(rs[p].id));
      UpdateStatus(evicted, ById(rs[c].id), Previous) + [rec]
  }

  /** The stored file names an upload of device d deletes with the evicted record. */
  function Evicted(rs: seq<Firmware>, d: string): set<string> {
    match (Slot(rs, d, Current), Slot(rs, d, Previous))
    case (Some(_), Some(p)) => {p.filename}
    case _ => {}
  }

  /**
   * The effect of the delete route on the collection: the record is looked
   * up by id and device together; when found, deleteOne by id removes it.
   */
  function Withdraw(rs: seq<Firmware>, d: string, id: nat): seq<Firmware> {
    match FindOne(rs, ByIdOnDevice(id, d))
    case None => rs
    case Some(_) => DeleteOne(rs, ById(id))
  }

  // ---------------------------------------------------------------------
  // The list route's ordering: by upload time, newest first

  ghost predicate NewestFirst(s: seq<Firmware>) {
    forall i, j :: 0 <= i < j < |s| ==> s[i].uploaded >= s[j].uploaded
  }

  /** A record no older than the head of a newest-first sequence can go in front of it. */
  lemma PrependNewest(h: Firmware, t: seq<Firmware>)
    requires NewestFirst(t) && (t == [] || h.uploaded >= t[0].uploaded)
    ensures NewestFirst([h] + t)
  {
    var r := [h] + t;
    forall i, j | 0 <= i < j < |r| ensures r[i].uploaded >= r[j].uploaded {
      if i == 0 && j > 1 {
        assert r[j] == t[j - 1];
      }
    }
  }

  /** Inserts x in front of the first record that is not newer than it. */
  function InsertNewest(x: Firmware, s: seq<Firmware>): seq<Firmware> {
    if s == [] then [x]
    else if x.uploaded >= s[0].uploaded then [x] + s
    else [s[0]] + InsertNewest(x, s[1..])
  }

  function SortNewestFirst(s: seq<Firmware>): seq<Firmware> {
    if s == [] then [] else InsertNewest(s[0], SortNewestFirst(s[1..]))
  }

  lemma {:induction false} InsertNewestSorts(x: Firmware, s: seq<Firmware>)
    requires NewestFirst(s)
    ensures NewestFirst(InsertNewest(x, s))
    ensures multiset(InsertNewest(x, s)) == multiset(s) + multiset{x}
    ensures InsertNewest(x, s)[0] == x || (s != [] && InsertNewest(x, s)[0] == s[0])
  {
    if s == [] {
    } else if x.uploaded >= s[0].uploaded {
      PrependNewest(x, s);
    } else {
      var rest := InsertNewest(x, s[1..]);
      InsertNewestSorts(x, s[1..]);
      assert s == [s[0]] + s[1..];
      PrependNewest(s[0], rest);
    }
  }

  /** The list route's order: newest first, and the same records. */
  lemma {:induction false} SortNewestFirstSorts(s: seq<Firmware>)
    ensures NewestFirst(SortNewestFirst(s))
    ensures multiset(SortNewestFirst(s)) == multiset(s)
  {
    if s != [] {
      SortNewestFirstSorts(s[1..]);
      InsertNewestSorts(s[0], SortNewestFirst(s[1..]));
      assert s == [s[0]] + s[1..];
    }
  }

  /** find({deviceID}).sort({uploaded: -1}). */
  function ListNewestFirst(rs: seq<Firmware>, d: string): seq<Firmware> {
    SortNewestFirst(OfDevice(rs, d))
  }
}
