/** The keys under which one database's evidence is stored. */
module StoreKeys {
  import opened Texts
  import opened Sequences
  import opened Accumulation

  /** A place in the store: an object of a segment, its manifest or its anchor record. */
  datatype Slot = ObjectSlot(n: nat, i: nat) | ManifestSlot(n: nat) | AnchorSlot(n: nat)

  function ManifestObjectKey(dbId: string, segmentId: string): string {
    dbId + "/" + segmentId + "/manifest.json"
  }

  function AnchorRecordKey(dbId: string, segmentId: string): string {
    dbId + "/" + segmentId + "/anchor.json"
  }

  function SlotKey(db: string, slot: Slot): string {
    match slot
    case ObjectSlot(n, i) => EvidenceObjectKey(db, SegmentId(n), i)
    case ManifestSlot(n) => ManifestObjectKey(db, SegmentId(n))
    case AnchorSlot(n) => AnchorRecordKey(db, SegmentId(n))
  }

  function FileName(slot: Slot): string {
    match slot
    case ObjectSlot(n, i) => PadSix(i) + ".cce.json"
    case ManifestSlot(n) => "manifest.json"
    case AnchorSlot(n) => "anchor.json"
  }

  lemma PathParts(db: string, seg: string, file: string)
    ensures db + "/" + seg + "/" + file == (db + "/") + (seg + ['/'] + file)
  {
    Regroup(db + "/", seg, "/");
    Regroup(db + "/", seg + "/", file);
  }

  lemma KeyParts(db: string, slot: Slot)
    ensures SlotKey(db, slot) == (db + "/") + (SegmentId(slot.n) + ['/'] + FileName(slot))
  {
    var seg := SegmentId(slot.n);
    PathParts(db, seg, FileName(slot));
    if slot.ObjectSlot? {
      Regroup(db + "/" + seg + "/", PadSix(slot.i), ".cce.json");
    }
    assert slot.ManifestSlot? ==> SlotKey(db, slot) == db + "/" + seg + "/" + FileName(slot) by {
      PathParts(db, seg, "manifest.json");
      assert "/" + "manifest.json" == "/manifest.json";
      Regroup(db + "/" + seg, "/", "manifest.json");
    }
    assert slot.AnchorSlot? ==> SlotKey(db, slot) == db + "/" + seg + "/" + FileName(slot) by {
      assert "/" + "anchor.json" == "/anchor.json";
      Regroup(db + "/" + seg, "/", "anchor.json");
    }
  }

  lemma SamePrefix(p: string, x: string, y: string)
    requires p + x == p + y
    ensures x == y
  {
    assert (p + x)[|p|..] == x && (p + y)[|p|..] == y;
  }

  lemma SameSuffix(x: string, y: string, t: string)
    requires x + t == y + t
    ensures x == y
  {
    assert |x| == |y|;
    assert (x + t)[..|x|] == x && (y + t)[..|y|] == y;
  }

  lemma NoSlash(n: nat)
    ensures '/' !in SegmentId(n)
  {
    var s := SegmentId(n);
    forall i | 0 <= i < |s| ensures s[i] != '/' {
      assert i >= 4 ==> s[i] == PadSix(n)[i - 4] && IsDigit(PadSix(n)[i - 4]);
    }
  }

  lemma PadSixInjective(m: nat, n: nat)
    requires PadSix(m) == PadSix(n)
    ensures m == n
  {
  }

  lemma PadSixNotEmpty(n: nat)
    ensures PadSix(n) != "" && IsDigit(PadSix(n)[0])
  {
    assert |PadSix(n)| >= |PrintNat(n)|;
    assert IsDigit(PadSix(n)[0]);
  }

  lemma FileNameTells(a: Slot, b: Slot)
    requires a.n == b.n && FileName(a) == FileName(b)
    ensures a == b
  {
    if a.ObjectSlot? {
      PadSixNotEmpty(a.i);
      assert FileName(a)[0] == PadSix(a.i)[0];
    }
    if b.ObjectSlot? {
      PadSixNotEmpty(b.i);
      assert FileName(b)[0] == PadSix(b.i)[0];
    }
    assert "manifest.json"[0] == 'm' && "anchor.json"[0] == 'a';
    if a.ObjectSlot? && b.ObjectSlot? {
      SameSuffix(PadSix(a.i), PadSix(b.i), ".cce.json");
      PadSixInjective(a.i, b.i);
    }
  }

  /** Different places have different keys, however many digits the numbers have. */
  lemma SlotKeysDiffer(db: string, a: Slot, b: Slot)
    ensures SlotKey(db, a) == SlotKey(db, b) <==> a == b
  {
    if SlotKey(db, a) == SlotKey(db, b) {
      KeyParts(db, a);
      KeyParts(db, b);
      var x, y := SegmentId(a.n) + ['/'] + FileName(a), SegmentId(b.n) + ['/'] + FileName(b);
      SamePrefix(db + "/", x, y);
      NoSlash(a.n);
      NoSlash(b.n);
      SplitFirst(SegmentId(a.n), '/', FileName(a));
      SplitFirst(SegmentId(b.n), '/', FileName(b));
      assert Split(x, '/')[0] == SegmentId(a.n) && Split(y, '/')[0] == SegmentId(b.n);
      SamePrefix("seg-", PadSix(a.n), PadSix(b.n));
      PadSixInjective(a.n, b.n);
      SamePrefix(SegmentId(a.n) + ['/'], FileName(a), FileName(b));
      FileNameTells(a, b);
    }
  }
}
