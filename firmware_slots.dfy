/**
 * What the upload and delete effects do to a device's two slots, to the
 * other devices' records, to record ids and to the stored files.
 */
module FirmwareSlots {
  import opened Wrappers
  import opened FirmwareRecords

  function Hit(f: Firmware, q: Query): nat {
    if Matches(f, q) then 1 else 0
  }

  // ---------------------------------------------------------------------
  // Counting

  lemma {:induction false} CountAppend(a: seq<Firmware>, b: seq<Firmware>, q: Query)
    ensures Count(a + b, q) == Count(a, q) + Count(b, q)
  {
    if a == [] {
      assert a + b == b;
    } else {
      assert (a + b)[1..] == a[1..] + b;
      CountAppend(a[1..], b, q);
    }
  }

  lemma CountSplit(rs: seq<Firmware>, i: nat, q: Query)
    requires i < |rs|
    ensures Count(rs, q) == Count(rs[..i], q) + Hit(rs[i], q) + Count(rs[i + 1..], q)
  {
    assert rs == rs[..i] + [rs[i]] + rs[i + 1..];
    CountAppend(rs[..i] + [rs[i]], rs[i + 1..], q);
    CountAppend(rs[..i], [rs[i]], q);
  }

  lemma {:induction false} CountZero(rs: seq<Firmware>, q: Query)
    ensures Count(rs, q) == 0 <==> FindOne(rs, q).None?
  {
    if rs != [] {
      CountZero(rs[1..], q);
    }
  }

  lemma CountPositive(rs: seq<Firmware>, q: Query, k: nat)
    requires k < |rs| && Matches(rs[k], q)
    ensures Count(rs, q) >= 1
  {
    CountSplit(rs, k, q);
  }

  /** Under a count of at most one, any matching record is the one findOne returns. */
  lemma FindOneAt(rs: seq<Firmware>, q: Query, k: nat)
    requires Count(rs, q) <= 1 && k < |rs| && Matches(rs[k], q)
    ensures FindOne(rs, q) == Some(k)
  {
    var j := FindOne(rs, q).value;
    if j < k {
      CountSplit(rs, k, q);
      assert rs[..k][j] == rs[j];
      CountPositive(rs[..k], q, j);
    }
  }

  lemma FindOneId(rs: seq<Firmware>, i: nat)
    requires UniqueIds(rs) && i < |rs|
    ensures FindOne(rs, ById(rs[i].id)) == Some(i)
  {
  }

  lemma CountRemoveAt(rs: seq<Firmware>, i: nat, q: Query)
    requires i < |rs|
    ensures Count(RemoveAt(rs, i), q) + Hit(rs[i], q) == Count(rs, q)
  {
    CountSplit(rs, i, q);
    CountAppend(rs[..i], rs[i + 1..], q);
  }

  lemma CountUpdate(rs: seq<Firmware>, i: nat, y: Firmware, q: Query)
    requires i < |rs|
    ensures Count(rs[i := y], q) + Hit(rs[i], q) == Count(rs, q) + Hit(y, q)
  {
    var u := rs[i := y];
    CountSplit(rs, i, q);
    CountSplit(u, i, q);
    assert u[..i] == rs[..i] && u[i + 1..] == rs[i + 1..];
  }

  lemma UniqueRemoveAt(rs: seq<Firmware>, i: nat)
    requires UniqueIds(rs) && i < |rs|
    ensures UniqueIds(RemoveAt(rs, i))
  {
    var r := RemoveAt(rs, i);
    forall a, b | 0 <= a < b < |r| ensures r[a].id != r[b].id {
      var a' := if a < i then a else a + 1;
      var b' := if b < i then b else b + 1;
      assert r[a] == rs[a'] && r[b] == rs[b'];
    }
  }

  // ---------------------------------------------------------------------
  // Records of one device

  lemma {:induction false} OfDeviceAppend(a: seq<Firmware>, b: seq<Firmware>, d: string)
    ensures OfDevice(a + b, d) == OfDevice(a, d) + OfDevice(b, d)
  {
    if a == [] {
      assert a + b == b;
    } else {
      assert (a + b)[1..] == a[1..] + b;
      OfDeviceAppend(a[1..], b, d);
    }
  }

  lemma OfDeviceSplit(rs: seq<Firmware>, i: nat, d: string)
    requires i < |rs|
    ensures OfDevice(rs, d) ==
      OfDevice(rs[..i], d) + (if rs[i].deviceID == d then [rs[i]] else []) + OfDevice(rs[i + 1..], d)
  {
    assert rs == rs[..i] + [rs[i]] + rs[i + 1..];
    OfDeviceAppend(rs[..i] + [rs[i]], rs[i + 1..], d);
    OfDeviceAppend(rs[..i], [rs[i]], d);
    assert [rs[i]][1..] == [];
  }

  lemma OfDeviceRemoveAt(rs: seq<Firmware>, i: nat, d: string)
    requires i < |rs| && rs[i].deviceID != d
    ensures OfDevice(RemoveAt(rs, i), d) == OfDevice(rs, d)
  {
    OfDeviceSplit(rs, i, d);
    OfDeviceAppend(rs[..i], rs[i + 1..], d);
  }

  lemma OfDeviceUpdate(rs: seq<Firmware>, i: nat, y: Firmware, d: string)
    requires i < |rs| && rs[i].deviceID != d && y.deviceID != d
    ensures OfDevice(rs[i := y], d) == OfDevice(rs, d)
  {
    var u := rs[i := y];
    OfDeviceSplit(rs, i, d);
    OfDeviceSplit(u, i, d);
    assert u[..i] == rs[..i] && u[i + 1..] == rs[i + 1..];
  }

  /** find({deviceID}) returns exactly the device's records. */
  lemma {:induction false} OfDeviceMembers(rs: seq<Firmware>, d: string)
    ensures forall f :: f in OfDevice(rs, d) <==> f in rs && f.deviceID == d
  {
    if rs != [] {
      OfDeviceMembers(rs[1..], d);
      assert rs == [rs[0]] + rs[1..];
    }
  }

  /** A device's records are exactly its Current and Previous records. */
  lemma {:induction false} DeviceRecords(rs: seq<Firmware>, d: string)
    ensures |OfDevice(rs, d)| == Count(rs, BySlot(d, Current)) + Count(rs, BySlot(d, Previous))
  {
    if rs != [] {
      DeviceRecords(rs[1..], d);
    }
  }

  /** A device's slot counts are read off its own records alone. */
  lemma {:induction false} CountOfDevice(rs: seq<Firmware>, d: string, s: Status)
    ensures Count(rs, BySlot(d, s)) == Count(OfDevice(rs, d), BySlot(d, s))
  {
    if rs != [] {
      CountOfDevice(rs[1..], d, s);
      CountAppend(if rs[0].deviceID == d then [rs[0]] else [], OfDevice(rs[1..], d), BySlot(d, s));
    }
  }

  /** So two collections holding the same records of a device agree on its slot bound. */
  lemma SameDeviceSameBound(rs: seq<Firmware>, us: seq<Firmware>, d: string)
    requires OfDevice(rs, d) == OfDevice(us, d)
    ensures SlotBound(rs, d) <==> SlotBound(us, d)
  {
    CountOfDevice(rs, d, Current);
    CountOfDevice(rs, d, Previous);
    CountOfDevice(us, d, Current);
    CountOfDevice(us, d, Previous);
  }

  // ---------------------------------------------------------------------
  // Upload

  /** The Install effect when the device has no Current record. */
  lemma InstallFirst(rs: seq<Firmware>, rec: Firmware)
    requires FindOne(rs, BySlot(rec.deviceID, Current)).None?
    ensures Install(rs, rec) == rs + [rec]
  {
  }

  /** The Install effect when the device has a Current record at c and no Previous record. */
  lemma InstallSecond(rs: seq<Firmware>, rec: Firmware, c: nat)
    requires UniqueIds(rs)
    requires FindOne(rs, BySlot(rec.deviceID, Current)) == Some(c)
    requires FindOne(rs, BySlot(rec.deviceID, Previous)).None?
    ensures Install(rs, rec) == rs[c := rs[c].(status := Previous)] + [rec]
  {
    FindOneId(rs, c);
  }

  /** The Install effect when the device has a Current record at c and a Previous record at p. */
  lemma InstallRotate(rs: seq<Firmware>, rec: Firmware, c: nat, p: nat)
    requires UniqueIds(rs)
    requires FindOne(rs, BySlot(rec.deviceID, Current)) == Some(c)
    requires FindOne(rs, BySlot(rec.deviceID, Previous)) == Some(p)
    ensures c != p
    ensures Shift(c, p) < |rs| - 1 && RemoveAt(rs, p)[Shift(c, p)] == rs[c]
    ensures Install(rs, rec) == RemoveAt(rs, p)[Shift(c, p) := rs[c].(status := Previous)] + [rec]
  {
    FindOneId(rs, p);
    var e := RemoveAt(rs, p);
    assert e[Shift(c, p)] == rs[c];
    UniqueRemoveAt(rs, p);
    FindOneId(e, Shift(c, p));
  }

  /** Where index c lands once index p is removed. */
  function Shift(c: nat, p: nat): nat
    requires c != p
  {
    if c < p then c else c - 1
  }

  /** The device's slots after an upload that found no Current record. */
  lemma SlotsAfterFirst(rs: seq<Firmware>, rec: Firmware)
    requires rec.status == Current && SlotBound(rs, rec.deviceID)
    requires FindOne(rs, BySlot(rec.deviceID, Current)).None?
    ensures var r, d := rs + [rec], rec.deviceID;
      && Count(r, BySlot(d, Current)) == 1
      && Count(r, BySlot(d, Previous)) <= 1
      && FindOne(r, BySlot(d, Current)) == Some(|rs|)
      && Slot(r, d, Previous) == Slot(rs, d, Previous)
  {
    var r, d := rs + [rec], rec.deviceID;
    var cur, prev := BySlot(d, Current), BySlot(d, Previous);
    CountZero(rs, cur);
    CountAppend(rs, [rec], cur);
    CountAppend(rs, [rec], prev);
    FindOneAt(r, cur, |rs|);
    var fp := FindOne(rs, prev);
    if fp.Some? {
      FindOneAt(r, prev, fp.value);
    }
  }

  /** The device's slots after an upload that demoted the Current record at c, with no Previous record. */
  lemma SlotsAfterDemote(rs: seq<Firmware>, rec: Firmware, c: nat)
    requires rec.status == Current && SlotBound(rs, rec.deviceID)
    requires FindOne(rs, BySlot(rec.deviceID, Current)) == Some(c)
    requires FindOne(rs, BySlot(rec.deviceID, Previous)).None?
    ensures var body := rs[c := rs[c].(status := Previous)];
      var r, d := body + [rec], rec.deviceID;
      && Count(r, BySlot(d, Current)) == 1
      && Count(r, BySlot(d, Previous)) == 1
      && FindOne(r, BySlot(d, Current)) == Some(|body|)
      && FindOne(r, BySlot(d, Previous)) == Some(c)
  {
    var d := rec.deviceID;
    var cur, prev := BySlot(d, Current), BySlot(d, Previous);
    var body := rs[c := rs[c].(status := Previous)];
    var r := body + [rec];
    CountPositive(rs, cur, c);
    CountUpdate(rs, c, body[c], cur);
    CountUpdate(rs, c, body[c], prev);
    CountZero(rs, prev);
    CountAppend(body, [rec], cur);
    CountAppend(body, [rec], prev);
    FindOneAt(r, prev, c);
    FindOneAt(r, cur, |body|);
  }

  /**
   * The device's slots after an upload that deleted the Previous record at
   * p and demoted the Current record at c.
   */
  lemma SlotsAfterRotate(rs: seq<Firmware>, rec: Firmware, c: nat, p: nat)
    requires rec.status == Current && SlotBound(rs, rec.deviceID)
    requires FindOne(rs, BySlot(rec.deviceID, Current)) == Some(c)
    requires FindOne(rs, BySlot(rec.deviceID, Previous)) == Some(p)
    ensures c != p && Shift(c, p) < |rs| - 1
    ensures var body := RemoveAt(rs, p)[Shift(c, p) := rs[c].(status := Previous)];
      var r, d := body + [rec], rec.deviceID;
      && Count(r, BySlot(d, Current)) == 1
      && Count(r, BySlot(d, Previous)) == 1
      && FindOne(r, BySlot(d, Current)) == Some(|body|)
      && FindOne(r, BySlot(d, Previous)) == Some(Shift(c, p))
      && body[Shift(c, p)] == rs[c].(status := Previous)
  {
    var d := rec.deviceID;
    var cur, prev := BySlot(d, Current), BySlot(d, Previous);
    var e := RemoveAt(rs, p);
    var c' := Shift(c, p);
    assert e[c'] == rs[c];
    var body := e[c' := rs[c].(status := Previous)];
    var r := body + [rec];
    CountPositive(rs, cur, c);
    CountPositive(rs, prev, p);
    CountRemoveAt(rs, p, cur);
    CountRemoveAt(rs, p, prev);
    CountUpdate(e, c', body[c'], cur);
    CountUpdate(e, c', body[c'], prev);
    CountAppend(body, [rec], cur);
    CountAppend(body, [rec], prev);
    FindOneAt(r, prev, c');
    FindOneAt(r, cur, |body|);
  }

  /**
   * The slot bound is kept: after a successful upload the device has exactly
   * one Current record, the new one, and at most one Previous record, which
   * is the demoted former Current when there was one and otherwise the
   * untouched former Previous; so the device has at most two records.
   */
  lemma InstallSlots(rs: seq<Firmware>, rec: Firmware)
    requires UniqueIds(rs) && rec.status == Current && SlotBound(rs, rec.deviceID)
    ensures var r, d := Install(rs, rec), rec.deviceID;
      && Count(r, BySlot(d, Current)) == 1
      && Count(r, BySlot(d, Previous)) <= 1
      && |OfDevice(r, d)| <= 2
      && Slot(r, d, Current) == Some(rec)
      && Slot(r, d, Previous) ==
           match Slot(rs, d, Current)
           case None => Slot(rs, d, Previous)
           case Some(c) => Some(c.(status := Previous))
  {
    var d := rec.deviceID;
    var fc, fp := FindOne(rs, BySlot(d, Current)), FindOne(rs, BySlot(d, Previous));
    if fc.None? {
      InstallFirst(rs, rec);
      SlotsAfterFirst(rs, rec);
      DeviceRecords(rs + [rec], d);
    } else if fp.None? {
      var c := fc.value;
      InstallSecond(rs, rec, c);
      SlotsAfterDemote(rs, rec, c);
      DeviceRecords(rs[c := rs[c].(status := Previous)] + [rec], d);
    } else {
      var c, p := fc.value, fp.value;
      InstallRotate(rs, rec, c, p);
      SlotsAfterRotate(rs, rec, c, p);
      DeviceRecords(RemoveAt(rs, p)[Shift(c, p) := rs[c].(status := Previous)] + [rec], d);
    }
  }

  /** An upload never touches the records of any other device. */
  lemma InstallOtherDevices(rs: seq<Firmware>, rec: Firmware, other: string)
    requires UniqueIds(rs) && other != rec.deviceID
    ensures OfDevice(Install(rs, rec), other) == OfDevice(rs, other)
  {
    var d := rec.deviceID;
    var fc, fp := FindOne(rs, BySlot(d, Current)), FindOne(rs, BySlot(d, Previous));
    var body: seq<Firmware>;
    if fc.None? {
      InstallFirst(rs, rec);
      body := rs;
    } else if fp.None? {
      var c := fc.value;
      InstallSecond(rs, rec, c);
      body := rs[c := rs[c].(status := Previous)];
      OfDeviceUpdate(rs, c, body[c], other);
    } else {
      var c, p := fc.value, fp.value;
      InstallRotate(rs, rec, c, p);
      body := RemoveAt(rs, p)[Shift(c, p) := rs[c].(status := Previous)];
      OfDeviceRemoveAt(rs, p, other);
      OfDeviceUpdate(RemoveAt(rs, p), Shift(c, p), rs[c].(status := Previous), other);
    }
    OfDeviceAppend(body, [rec], other);
  }

  /** Removing the Previous record at p and demoting the one at c leaves no record with p's id. */
  lemma RotateDropsId(rs: seq<Firmware>, c: nat, p: nat)
    requires UniqueIds(rs) && c < |rs| && p < |rs| && c != p
    ensures var body := RemoveAt(rs, p)[Shift(c, p) := rs[c].(status := Previous)];
      forall j :: 0 <= j < |body| ==> body[j].id != rs[p].id
  {
    var e := RemoveAt(rs, p);
    var body := e[Shift(c, p) := rs[c].(status := Previous)];
    forall j | 0 <= j < |body| ensures body[j].id != rs[p].id {
      var k := if j < p then j else j + 1;
      assert body[j].id == e[j].id == rs[k].id;
    }
  }

  /**
   * When the device has both a Current and a Previous record, no record with
   * the Previous record's id is left after the upload (the new record takes a
   * fresh id).
   */
  lemma InstallEvicts(rs: seq<Firmware>, rec: Firmware)
    requires UniqueIds(rs) && forall i :: 0 <= i < |rs| ==> rs[i].id != rec.id
    requires Slot(rs, rec.deviceID, Current).Some? && Slot(rs, rec.deviceID, Previous).Some?
    ensures forall f :: f in Install(rs, rec) ==> f.id != Slot(rs, rec.deviceID, Previous).value.id
  {
    var d := rec.deviceID;
    var c := FindOne(rs, BySlot(d, Current)).value;
    var p := FindOne(rs, BySlot(d, Previous)).value;
    InstallRotate(rs, rec, c, p);
    RotateDropsId(rs, c, p);
    var body := RemoveAt(rs, p)[Shift(c, p) := rs[c].(status := Previous)];
    var r := body + [rec];
    assert forall j :: 0 <= j < |r| ==> r[j].id != rs[p].id by {
      forall j | 0 <= j < |r| ensures r[j].id != rs[p].id {
        if j < |body| { assert r[j] == body[j]; }
      }
    }
  }

  lemma UpdateKeepsIds(rs: seq<Firmware>, i: nat, y: Firmware, next: nat)
    requires i < |rs| && y.id == rs[i].id && UniqueIds(rs) && IdsBelow(rs, next)
    ensures UniqueIds(rs[i := y]) && IdsBelow(rs[i := y], next)
  {
    var u := rs[i := y];
    assert forall j :: 0 <= j < |u| ==> u[j].id == rs[j].id;
  }

  lemma AppendKeepsIds(rs: seq<Firmware>, rec: Firmware, next: nat)
    requires UniqueIds(rs) && IdsBelow(rs, next) && rec.id == next
    ensures UniqueIds(rs + [rec]) && IdsBelow(rs + [rec], next + 1)
  {
    var r := rs + [rec];
    assert forall j :: 0 <= j < |rs| ==> r[j] == rs[j];
  }

  /** Ids stay distinct and below the counter once the new record takes the counter's value. */
  lemma InstallKeepsIds(rs: seq<Firmware>, rec: Firmware, next: nat)
    requires UniqueIds(rs) && IdsBelow(rs, next) && rec.id == next
    ensures UniqueIds(Install(rs, rec)) && IdsBelow(Install(rs, rec), next + 1)
  {
    var d := rec.deviceID;
    var fc, fp := FindOne(rs, BySlot(d, Current)), FindOne(rs, BySlot(d, Previous));
    var body: seq<Firmware>;
    if fc.None? {
      InstallFirst(rs, rec);
      body := rs;
    } else if fp.None? {
      var c := fc.value;
      InstallSecond(rs, rec, c);
      body := rs[c := rs[c].(status := Previous)];
      UpdateKeepsIds(rs, c, body[c], next);
    } else {
      var c, p := fc.value, fp.value;
      InstallRotate(rs, rec, c, p);
      var e := RemoveAt(rs, p);
      UniqueRemoveAt(rs, p);
      assert IdsBelow(e, next);
      body := e[Shift(c, p) := rs[c].(status := Previous)];
      UpdateKeepsIds(e, Shift(c, p), body[Shift(c, p)], next);
    }
    AppendKeepsIds(body, rec, next);
  }

  /**
   * When the new record is no older than any stored record, the Previous
   * slot is never newer than the Current slot after the upload.
   */
  lemma InstallKeepsOrder(rs: seq<Firmware>, rec: Firmware)
    requires UniqueIds(rs) && rec.status == Current && SlotBound(rs, rec.deviceID)
    requires forall i :: 0 <= i < |rs| ==> rs[i].uploaded <= rec.uploaded
    ensures var r, d := Install(rs, rec), rec.deviceID;
      Slot(r, d, Current).Some? &&
      (Slot(r, d, Previous).Some? ==> Slot(r, d, Previous).value.uploaded <= Slot(r, d, Current).value.uploaded)
  {
    InstallSlots(rs, rec);
  }

  lemma AppendBacked(body: seq<Firmware>, rec: Firmware, files: set<string>)
    requires Backed(body, files) && DistinctFiles(body) && rec.filename in files
    requires forall j :: 0 <= j < |body| ==> body[j].filename != rec.filename
    ensures Backed(body + [rec], files) && DistinctFiles(body + [rec])
  {
    var r := body + [rec];
    assert forall j :: 0 <= j < |body| ==> r[j] == body[j];
  }

  /** Filenames of rs after removing index p and rewriting one status are those of rs without p. */
  lemma RotateFiles(rs: seq<Firmware>, c: nat, p: nat, files: set<string>, rec: Firmware)
    requires c < |rs| && p < |rs| && c != p
    requires Backed(rs, files) && DistinctFiles(rs)
    requires forall i :: 0 <= i < |rs| ==> rs[i].filename != rec.filename
    ensures var body := RemoveAt(rs, p)[Shift(c, p) := rs[c].(status := Previous)];
      && Backed(body, files - {rs[p].filename})
      && DistinctFiles(body)
      && forall j :: 0 <= j < |body| ==> body[j].filename != rec.filename
  {
    var body := RemoveAt(rs, p)[Shift(c, p) := rs[c].(status := Previous)];
    assert forall j :: 0 <= j < |body| ==> body[j].filename == rs[if j < p then j else j + 1].filename;
  }

  /**
   * Records and files stay consistent across an upload whose stored name no
   * record uses yet: every record still has its file, and the one file
   * deleted is the evicted record's.
   */
  lemma InstallBacked(rs: seq<Firmware>, files: set<string>, rec: Firmware)
    requires UniqueIds(rs) && Backed(rs, files) && DistinctFiles(rs)
    requires forall i :: 0 <= i < |rs| ==> rs[i].filename != rec.filename
    ensures var r := Install(rs, rec);
      && Backed(r, (files + {rec.filename}) - Evicted(rs, rec.deviceID))
      && DistinctFiles(r)
  {
    var d := rec.deviceID;
    var fc, fp := FindOne(rs, BySlot(d, Current)), FindOne(rs, BySlot(d, Previous));
    var grown := files + {rec.filename};
    if fc.None? {
      InstallFirst(rs, rec);
      assert Evicted(rs, d) == {};
      BackedAfterFirst(rs, rec, grown);
    } else if fp.None? {
      var c := fc.value;
      InstallSecond(rs, rec, c);
      assert Evicted(rs, d) == {};
      BackedAfterDemote(rs, rec, c, grown);
    } else {
      var c, p := fc.value, fp.value;
      InstallRotate(rs, rec, c, p);
      assert Evicted(rs, d) == {rs[p].filename};
      BackedAfterRotate(rs, rec, c, p, grown);
    }
  }

  lemma BackedAfterFirst(rs: seq<Firmware>, rec: Firmware, files: set<string>)
    requires Backed(rs, files) && DistinctFiles(rs) && rec.filename in files
    requires forall i :: 0 <= i < |rs| ==> rs[i].filename != rec.filename
    ensures Backed(rs + [rec], files - {}) && DistinctFiles(rs + [rec])
  {
    assert files - {} == files;
    AppendBacked(rs, rec, files);
  }

  lemma BackedAfterDemote(rs: seq<Firmware>, rec: Firmware, c: nat, files: set<string>)
    requires c < |rs| && Backed(rs, files) && DistinctFiles(rs) && rec.filename in files
    requires forall i :: 0 <= i < |rs| ==> rs[i].filename != rec.filename
    ensures var body := rs[c := rs[c].(status := Previous)];
      Backed(body + [rec], files - {}) && DistinctFiles(body + [rec])
  {
    var body := rs[c := rs[c].(status := Previous)];
    assert files - {} == files;
    assert forall j :: 0 <= j < |body| ==> body[j].filename == rs[j].filename;
    AppendBacked(body, rec, files);
  }

  lemma BackedAfterRotate(rs: seq<Firmware>, rec: Firmware, c: nat, p: nat, files: set<string>)
    requires c < |rs| && p < |rs| && c != p
    requires Backed(rs, files) && DistinctFiles(rs) && rec.filename in files
    requires forall i :: 0 <= i < |rs| ==> rs[i].filename != rec.filename
    ensures var body := RemoveAt(rs, p)[Shift(c, p) := rs[c].(status := Previous)];
      Backed(body + [rec], files - {rs[p].filename}) && DistinctFiles(body + [rec])
  {
    RotateFiles(rs, c, p, files, rec);
    AppendBacked(RemoveAt(rs, p)[Shift(c, p) := rs[c].(status := Previous)], rec, files - {rs[p].filename});
  }

  /** Any upload keeps the two-slot bound of every device. */
  lemma InstallKeepsBounds(rs: seq<Firmware>, rec: Firmware)
    requires UniqueIds(rs) && rec.status == Current && forall d :: SlotBound(rs, d)
    ensures forall d :: SlotBound(Install(rs, rec), d)
  {
    forall d ensures SlotBound(Install(rs, rec), d) {
      if d == rec.deviceID {
        InstallSlots(rs, rec);
      } else {
        InstallOtherDevices(rs, rec, d);
        SameDeviceSameBound(Install(rs, rec), rs, d);
      }
    }
  }

  /** The facts about one upload's effect that the store keeps, gathered in one place. */
  lemma InstallFacts(rs: seq<Firmware>, files: set<string>, rec: Firmware, next: nat)
    requires UniqueIds(rs) && IdsBelow(rs, next) && rec.id == next && rec.status == Current
    requires rec.filename in files
    ensures UniqueIds(Install(rs, rec)) && IdsBelow(Install(rs, rec), next + 1)
    ensures SlotBound(rs, rec.deviceID) ==>
      && SlotBound(Install(rs, rec), rec.deviceID)
      && Slot(Install(rs, rec), rec.deviceID, Current) == Some(rec)
      && |OfDevice(Install(rs, rec), rec.deviceID)| <= 2
    ensures forall other :: other != rec.deviceID ==> OfDevice(Install(rs, rec), other) == OfDevice(rs, other)
    ensures (forall d :: SlotBound(rs, d)) ==> forall d :: SlotBound(Install(rs, rec), d)
    ensures Backed(rs, files) && DistinctFiles(rs)
            && (forall i :: 0 <= i < |rs| ==> rs[i].filename != rec.filename) ==>
      Backed(Install(rs, rec), files - Evicted(rs, rec.deviceID)) && DistinctFiles(Install(rs, rec))
  {
    var r, d := Install(rs, rec), rec.deviceID;
    assert UniqueIds(r) && IdsBelow(r, next + 1) by {
      InstallKeepsIds(rs, rec, next);
    }
    assert SlotBound(rs, d) ==> SlotBound(r, d) && Slot(r, d, Current) == Some(rec) && |OfDevice(r, d)| <= 2 by {
      if SlotBound(rs, d) {
        InstallSlots(rs, rec);
      }
    }
    assert forall other :: other != d ==> OfDevice(r, other) == OfDevice(rs, other) by {
      forall other | other != d
        ensures OfDevice(r, other) == OfDevice(rs, other)
      {
        InstallOtherDevices(rs, rec, other);
      }
    }
    assert (forall x :: SlotBound(rs, x)) ==> forall x :: SlotBound(r, x) by {
      if forall x :: SlotBound(rs, x) {
        InstallKeepsBounds(rs, rec);
      }
    }
    assert Backed(rs, files) && DistinctFiles(rs) && (forall i :: 0 <= i < |rs| ==> rs[i].filename != rec.filename) ==>
      Backed(r, files - Evicted(rs, d)) && DistinctFiles(r) by {
      if Backed(rs, files) && DistinctFiles(rs)
         && forall i :: 0 <= i < |rs| ==> rs[i].filename != rec.filename {
        InstallBacked(rs, files, rec);
        assert files + {rec.filename} == files;
      }
    }
  }

  // ---------------------------------------------------------------------
  // Delete

  /**
   * Delete removes exactly the record found by id and device, keeping the
   * order of all others, and leaves no record with that id; when nothing is
   * found the collection is unchanged.
   */
  lemma WithdrawRemovesOne(rs: seq<Firmware>, d: string, id: nat)
    requires UniqueIds(rs)
    ensures match FindOne(rs, ByIdOnDevice(id, d))
      case None => Withdraw(rs, d, id) == rs
      case Some(i) =>
        && Withdraw(rs, d, id) == RemoveAt(rs, i)
        && forall f :: f in Withdraw(rs, d, id) ==> f.id != id
  {
    match FindOne(rs, ByIdOnDevice(id, d))
    case None =>
    case Some(i) =>
      FindOneId(rs, i);
      var r := RemoveAt(rs, i);
      forall f | f in r ensures f.id != id {
        var j :| 0 <= j < |r| && r[j] == f;
        var k := if j < i then j else j + 1;
        assert f == rs[k];
      }
  }

  /** Removing the record at i empties its slot and keeps the other slot's record, given the slot bound. */
  lemma SlotsAfterRemove(rs: seq<Firmware>, d: string, i: nat)
    requires i < |rs| && rs[i].deviceID == d && SlotBound(rs, d)
    ensures var r, s := RemoveAt(rs, i), rs[i].status;
      && Slot(r, d, s) == None
      && Slot(r, d, Other(s)) == Slot(rs, d, Other(s))
  {
    var s := rs[i].status;
    var r := RemoveAt(rs, i);
    CountRemoveAt(rs, i, BySlot(d, s));
    CountZero(r, BySlot(d, s));
    var q := BySlot(d, Other(s));
    var fq := FindOne(rs, q);
    if fq.Some? {
      var k := fq.value;
      var k' := if k < i then k else k - 1;
      assert r[k'] == rs[k];
      CountRemoveAt(rs, i, q);
      FindOneAt(r, q, k');
    } else {
      assert forall j :: 0 <= j < |r| ==> !Matches(r[j], q);
    }
  }

  /**
   * Deleting a record empties its slot and leaves the device's other slot
   * as it was: a deleted Current is not replaced by the Previous record.
   */
  lemma WithdrawSlots(rs: seq<Firmware>, d: string, id: nat)
    requires UniqueIds(rs) && SlotBound(rs, d)
    requires FindOne(rs, ByIdOnDevice(id, d)).Some?
    ensures var i := FindOne(rs, ByIdOnDevice(id, d)).value;
      var r, s := Withdraw(rs, d, id), rs[i].status;
      && Slot(r, d, s) == None
      && Slot(r, d, Other(s)) == Slot(rs, d, Other(s))
  {
    var i := FindOne(rs, ByIdOnDevice(id, d)).value;
    WithdrawRemovesOne(rs, d, id);
    SlotsAfterRemove(rs, d, i);
  }

  /** Delete keeps every device's slot bound. */
  lemma WithdrawKeepsBound(rs: seq<Firmware>, d: string, id: nat, other: string)
    requires UniqueIds(rs) && SlotBound(rs, other)
    ensures SlotBound(Withdraw(rs, d, id), other)
  {
    WithdrawRemovesOne(rs, d, id);
    match FindOne(rs, ByIdOnDevice(id, d))
    case None =>
    case Some(i) =>
      CountRemoveAt(rs, i, BySlot(other, Current));
      CountRemoveAt(rs, i, BySlot(other, Previous));
  }

  lemma WithdrawKeepsIds(rs: seq<Firmware>, d: string, id: nat, next: nat)
    requires UniqueIds(rs) && IdsBelow(rs, next)
    ensures UniqueIds(Withdraw(rs, d, id)) && IdsBelow(Withdraw(rs, d, id), next)
  {
    WithdrawRemovesOne(rs, d, id);
    match FindOne(rs, ByIdOnDevice(id, d))
    case None =>
    case Some(i) =>
      UniqueRemoveAt(rs, i);
  }

  /** Delete removes the record together with its file and keeps records and files consistent. */
  lemma WithdrawBacked(rs: seq<Firmware>, files: set<string>, d: string, id: nat)
    requires UniqueIds(rs) && Backed(rs, files) && DistinctFiles(rs)
    requires FindOne(rs, ByIdOnDevice(id, d)).Some?
    ensures var i := FindOne(rs, ByIdOnDevice(id, d)).value;
      && Backed(Withdraw(rs, d, id), files - {rs[i].filename})
      && DistinctFiles(Withdraw(rs, d, id))
  {
    var i := FindOne(rs, ByIdOnDevice(id, d)).value;
    WithdrawRemovesOne(rs, d, id);
    var r := RemoveAt(rs, i);
    forall j | 0 <= j < |r| ensures r[j].filename == rs[if j < i then j else j + 1].filename {
    }
  }

  /** The facts about one delete's effect that the store keeps, gathered in one place. */
  lemma WithdrawFacts(rs: seq<Firmware>, files: set<string>, d: string, id: nat, next: nat)
    requires UniqueIds(rs) && IdsBelow(rs, next)
    ensures UniqueIds(Withdraw(rs, d, id)) && IdsBelow(Withdraw(rs, d, id), next)
    ensures match FindOne(rs, ByIdOnDevice(id, d))
      case None => Withdraw(rs, d, id) == rs
      case Some(i) => Withdraw(rs, d, id) == RemoveAt(rs, i)
    ensures forall other :: SlotBound(rs, other) ==> SlotBound(Withdraw(rs, d, id), other)
    ensures FindOne(rs, ByIdOnDevice(id, d)).Some? && SlotBound(rs, d) ==>
      var s := rs[FindOne(rs, ByIdOnDevice(id, d)).value].status;
      && Slot(Withdraw(rs, d, id), d, s) == None
      && Slot(Withdraw(rs, d, id), d, Other(s)) == Slot(rs, d, Other(s))
    ensures FindOne(rs, ByIdOnDevice(id, d)).Some? && Backed(rs, files) && DistinctFiles(rs) ==>
      var i := FindOne(rs, ByIdOnDevice(id, d)).value;
      Backed(Withdraw(rs, d, id), files - {rs[i].filename}) && DistinctFiles(Withdraw(rs, d, id))
  {
    var r := Withdraw(rs, d, id);
    var found := FindOne(rs, ByIdOnDevice(id, d));
    assert UniqueIds(r) && IdsBelow(r, next) by {
      WithdrawKeepsIds(rs, d, id, next);
    }
    assert found.Some? ==> r == RemoveAt(rs, found.value) by {
      WithdrawRemovesOne(rs, d, id);
    }
    assert forall other :: SlotBound(rs, other) ==> SlotBound(r, other) by {
      forall other | SlotBound(rs, other) ensures SlotBound(r, other) {
        WithdrawKeepsBound(rs, d, id, other);
      }
    }
    if found.Some? && SlotBound(rs, d) {
      WithdrawSlots(rs, d, id);
    }
    if found.Some? && Backed(rs, files) && DistinctFiles(rs) {
      WithdrawBacked(rs, files, d, id);
    }
  }
}
