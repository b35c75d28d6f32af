/**
 * Visits of written images end: the writer only makes pointers that lead forward, so that even the
 * empty directories that it cannot express only lead on, to what is behind them.
 */
module CartFsEnds {
  import opened Arith
  import opened Wrappers
  import opened CartImage
  import opened CartFs
  import opened CartFsTheorems
  import opened CartFsVisits
  import Adler

  /** There is an entry of the listing at `base`, or of a directory in it, at `p`. */
  predicate Within(l: seq<Node>, base: nat, p: nat)
    decreases l
  {
    && l != []
    && (|| p == base
        || (l[0].Dir? && Within(l[0].entries, base + HEADER_LEN, p))
        || Within(l[1..], base + Size(l[0]), p))
  }

  /** The last entry that is written is an empty directory. */
  predicate EndsEmpty(l: seq<Node>)
    decreases l
  {
    && l != []
    && if |l| > 1 then EndsEmpty(l[1..]) else l[0].Dir? && (l[0].entries == [] || EndsEmpty(l[0].entries))
  }

  function ListEnd(l: seq<Node>, base: nat): nat { base + SizeOfList(l) }

  lemma EndOf(l: seq<Node>, base: nat)
    requires l != []
    ensures ListEnd(l, base) == if |l| > 1 then ListEnd(l[1..], base + Size(l[0])) else base + Size(l[0])
    ensures l[0].Dir? ==> base + Size(l[0]) == ListEnd(l[0].entries, base + HEADER_LEN)
  {
    assert SizeOfList(l) == Size(l[0]) + SizeOfList(l[1..]);
    if |l| == 1 { assert l[1..] == []; }
  }

  /** What a pointer of a listing leads to. */
  ghost predicate OnwardOrEnd(l: seq<Node>, base: nat, p: nat, q: nat) {
    p < q && (Within(l, base, q) || (q == ListEnd(l, base) && EndsEmpty(l)))
  }

  /** All that is reached in a listing is an entry of it that is further on, or what is behind it. */
  lemma {:induction false} WithinLeads(mem: seq<nat>, l: seq<Node>, base: nat, p: nat, q: nat)
    requires ListAt(mem, l, base) && Within(l, base, p) && Leads(mem, p, q)
    ensures OnwardOrEnd(l, base, p, q)
    decreases l
  {
    hide ListAt, NodeAtPos, Size, ViewOf, View, Next, ListEnd, EntryAt, TypeAt;
    ListSplits(mem, l, base);
    EntryView(mem, l[0], base, |l| == 1);
    EndOf(l, base);
    if p == base {
      FirstLeads(mem, l, base, q);
    } else if l[0].Dir? && Within(l[0].entries, base + HEADER_LEN, p) {
      NotEmpty(l[0].entries, base + HEADER_LEN, p);
      DirSplits(mem, l[0], base, |l| == 1);
      WithinLeads(mem, l[0].entries, base + HEADER_LEN, p, q);
      if |l| > 1 { WithinFirst(l[1..], base + Size(l[0])); }
    } else {
      NotEmpty(l[1..], base + Size(l[0]), p);
      WithinLeads(mem, l[1..], base + Size(l[0]), p, q);
    }
  }

  lemma NotEmpty(l: seq<Node>, base: nat, p: nat)
    requires Within(l, base, p)
    ensures l != []
  {}

  lemma WithinFirst(l: seq<Node>, base: nat)
    requires l != []
    ensures Within(l, base, base)
  {}

  lemma FirstLeads(mem: seq<nat>, l: seq<Node>, base: nat, q: nat)
    requires ListAt(mem, l, base) && l != [] && Leads(mem, base, q)
    ensures OnwardOrEnd(l, base, base, q)
  {
    ListSplits(mem, l, base);
    EntryView(mem, l[0], base, |l| == 1);
    EndOf(l, base);
    hide ListAt, NodeAtPos, ViewOf, View, Next, ListEnd, EntryAt, TypeAt;
    if |l| > 1 { WithinFirst(l[1..], base + Size(l[0])); }
    if l[0].Dir? && l[0].entries != [] { WithinFirst(l[0].entries, base + HEADER_LEN); }
  }

  lemma {:induction false} WithinForward(mem: seq<nat>, l: seq<Node>, base: nat, utf8: seq<nat> -> bool, p: nat)
    requires ListAt(mem, l, base) && Within(l, base, p)
    ensures LeadsForward(mem, p) && Sound(mem, utf8, p)
    decreases l
  {
    hide ListAt, NodeAtPos, Size, ViewOf, View, Next, EntryAt, TypeAt, CheckOne, CheckVisitor;
    ListSplits(mem, l, base);
    if p == base {
      EntryView(mem, l[0], base, |l| == 1);
      TreeEntrySound(utf8, l[0]);
    } else if l[0].Dir? && Within(l[0].entries, base + HEADER_LEN, p) {
      NotEmpty(l[0].entries, base + HEADER_LEN, p);
      DirSplits(mem, l[0], base, |l| == 1);
      WithinForward(mem, l[0].entries, base + HEADER_LEN, utf8, p);
    } else {
      NotEmpty(l[1..], base + Size(l[0]), p);
      WithinForward(mem, l[1..], base + Size(l[0]), utf8, p);
    }
  }

  lemma TreeEntrySound(utf8: seq<nat> -> bool, n: Node)
    ensures CheckOne(utf8, Stats(0, 0, 0, 0), ViewOf(n)).1.Ok?
  {}

  /** The image of a tree, and nothing behind it. */
  ghost predicate HoldsAll(mem: seq<nat>, root: Node) { ListAt(mem, [root], 16) && |mem| == ListEnd([root], 16) }

  lemma TreeHeld(root: Node)
    requires Good(root) && |Image(root)| < U32
    ensures HoldsAll(Image(root), root) && |Image(root)| >= 48
  {
    ImageHolds(root);
    EndOf([root], 16);
  }

  lemma NothingAtEnd(mem: seq<nat>)
    ensures EntryAt(mem, |mem|).Err?
  {}

  lemma {:induction false} WayWithin(mem: seq<nat>, root: Node, ps: seq<nat>)
    requires HoldsAll(mem, root) && Way(mem, ps) && ps[0] == 16
    ensures var q := ps[|ps| - 1]; Within([root], 16, q) || (q == |mem| && EndsEmpty([root]))
    decreases |ps|
  {
    hide ListAt, Leads, Within, EndsEmpty, ListEnd;
    if |ps| == 1 {
      WithinFirst([root], 16);
    } else {
      var k := |ps| - 2;
      assert Leads(mem, ps[k], ps[k + 1]);
      WayWithin(mem, root, ps[..k + 1]);
      if ps[k] == |mem| {
        NothingAtEnd(mem);
        LeadsFromEntry(mem, ps[k], ps[k + 1]);
      } else {
        WithinLeads(mem, [root], 16, ps[k], ps[k + 1]);
      }
    }
  }

  lemma LeadsFromEntry(mem: seq<nat>, p: nat, q: nat)
    requires Leads(mem, p, q)
    ensures EntryAt(mem, p).Ok?
  {}

  lemma ReachedWithin(mem: seq<nat>, root: Node, q: nat)
    requires HoldsAll(mem, root) && Reaches(mem, 16, q)
    ensures Within([root], 16, q) || (q == |mem| && EndsEmpty([root]))
  {
    hide HoldsAll, Way, Within, EndsEmpty;
    var ps :| WayTo(mem, ps, 16, q);
    WayWithin(mem, root, ps);
  }

  /** What is behind a listing is reached in it, if it ends with an empty directory. */
  lemma {:induction false} EndReached(mem: seq<nat>, l: seq<Node>, base: nat)
    requires ListAt(mem, l, base) && EndsEmpty(l)
    ensures Reaches(mem, base, ListEnd(l, base))
    decreases l
  {
    hide ListAt, NodeAtPos, Size, ViewOf, View, Next, EntryAt, TypeAt, Reaches, ListEnd;
    ListSplits(mem, l, base);
    EntryView(mem, l[0], base, |l| == 1);
    EndOf(l, base);
    if |l| > 1 {
      EndReached(mem, l[1..], base + Size(l[0]));
      ReachesFurther(mem, base, base + Size(l[0]), ListEnd(l, base));
    } else if l[0].entries == [] {
      EmptySize(l[0]);
      ReachesSelf(mem, base + HEADER_LEN);
      ReachesFurther(mem, base, base + HEADER_LEN, ListEnd(l, base));
    } else {
      DirSplits(mem, l[0], base, true);
      EndReached(mem, l[0].entries, base + HEADER_LEN);
      ReachesFurther(mem, base, base + HEADER_LEN, ListEnd(l, base));
    }
  }

  lemma EmptySize(n: Node)
    requires n.Dir? && n.entries == []
    ensures Size(n) == HEADER_LEN
  {}

  /** Whatever the visitor, a visit of the image of any tree ends, empty directories or not. */
  lemma TreeVisitEnds<S>(root: Node, v: Visitor<S>, s: S, fuel: nat)
    requires Good(root) && |Image(root)| < U32 && 16 * (fuel + 2) > |Image(root)|
    ensures WalkBytes(Image(root), 16, v, s, fuel).Some?
  {
    hide Image, WalkBytes, HoldsAll, Good, Within, LeadsForward, EndsEmpty, Reaches;
    var mem := Image(root);
    TreeHeld(root);
    forall q | Reaches(mem, 16, q) ensures LeadsForward(mem, q) {
      ReachedWithin(mem, root, q);
      if q == |mem| {
        NothingAtEnd(mem);
        NoEntry(mem, q);
      } else {
        HeldForward(mem, root, _ => true, q);
      }
    }
    ForwardEnds(mem, 16, v, s, fuel);
  }

  lemma NoEntry(mem: seq<nat>, q: nat)
    requires EntryAt(mem, q).Err?
    ensures LeadsForward(mem, q)
  {}

  lemma HeldForward(mem: seq<nat>, root: Node, utf8: seq<nat> -> bool, q: nat)
    requires HoldsAll(mem, root) && Within([root], 16, q)
    ensures LeadsForward(mem, q) && Sound(mem, utf8, q)
  {
    WithinForward(mem, [root], 16, utf8, q);
  }

  // ---------- What the check makes of a tree ----------

  lemma EndNotSound(mem: seq<nat>, utf8: seq<nat> -> bool)
    ensures !Sound(mem, utf8, |mem|)
  {}

  lemma NotClean(mem: seq<nat>, utf8: seq<nat> -> bool, p: nat, q: nat)
    requires Reaches(mem, p, q) && !Sound(mem, utf8, q)
    ensures !Clean(mem, utf8, p)
  {}

  /** Nothing in the image of a tree stops the check, unless it is led to the end. */
  lemma TreeClean(mem: seq<nat>, root: Node, utf8: seq<nat> -> bool)
    requires HoldsAll(mem, root)
    ensures Clean(mem, utf8, 16) <==> !EndsEmpty([root])
  {
    hide Within, EndsEmpty, Sound, EntryAt, ListAt, ListEnd, Reaches;
    if EndsEmpty([root]) {
      EndReached(mem, [root], 16);
      EndNotSound(mem, utf8);
      NotClean(mem, utf8, 16, |mem|);
    } else {
      forall q | Reaches(mem, 16, q) ensures Sound(mem, utf8, q) {
        ReachedWithin(mem, root, q);
        HeldForward(mem, root, utf8, q);
      }
    }
  }

  /** How the visit of the check ends. */
  lemma TreeWalk(root: Node, utf8: seq<nat> -> bool, fuel: nat)
    requires Good(root) && |Image(root)| < U32 && 16 * (fuel + 2) > |Image(root)|
    ensures var r := WalkBytes(Image(root), 16, CheckVisitor(utf8), Stats(0, 0, 0, 0), fuel);
      r.Some? && if EndsEmpty([root]) then r.value.1.Err? else r.value.1 == Ok(None)
  {
    var mem, v, st := Image(root), CheckVisitor(utf8), Stats(0, 0, 0, 0);
    hide Image, WalkBytes, HoldsAll, Good, EndsEmpty, CheckVisitor, Clean;
    TreeHeld(root);
    TreeVisitEnds(root, v, st, fuel);
    TreeClean(mem, root, utf8);
    CountsGrow(mem, 16, utf8, st, fuel);
    var r := WalkBytes(mem, 16, v, st, fuel).value;
    if Clean(mem, utf8, 16) {
      CleanLeaves(mem, 16, utf8, st, fuel);
    } else if r.1 == Ok(None) {
      assert Leaves(mem, 16, v, st, r.0);
      LeavesClean(mem, 16, utf8, st, r.0);
    }
  }

  /** What it has counted then. */
  lemma TreeCounts(root: Node, utf8: seq<nat> -> bool, fuel: nat, st: Stats)
    requires Good(root) && |Image(root)| < U32
    requires WalkBytes(Image(root), 16, CheckVisitor(utf8), Stats(0, 0, 0, 0), fuel) == Some((st, Ok(None)))
    ensures var all := Preorder([root]);
      if Full([root]) then st == Stats(Dirs(all), Files(all), 0, Bytes(all)) else Counted(st) > |all|
  {
    var mem, v, none := Image(root), CheckVisitor(utf8), Stats(0, 0, 0, 0);
    ImageHolds(root);
    hide Image, WalkBytes, Good, CheckVisitor, ListAt, Full, Need, U32At, Adler.Checksum;
    if Full([root]) {
      CheckPasses(root, utf8);
      WrittenWalk(mem, [root], 16, v, none, fuel + Need([root]));
      SameResult(mem, 16, v, none, fuel, fuel + Need([root]));
      hide Walk;
    } else {
      EmptyDirsCount(mem, [root], 16, utf8, none, fuel);
    }
  }

  /**
   * The check of the image of a tree always ends. It fails if and only if the last entry written is an
   * empty directory; else its counts are right if no directory is empty, and too high if one is.
   */
  lemma CheckOfTree(root: Node, utf8: seq<nat> -> bool, fuel: nat)
    requires Good(root) && |Image(root)| < U32 && 16 * (fuel + 2) > |Image(root)|
    ensures |Image(root)| >= 16
    ensures var r, all := CheckedIn(Image(root), utf8, fuel), Preorder([root]);
      match r
      case None => false
      case Some(Err(_)) => EndsEmpty([root])
      case Some(Ok(st)) =>
        (&& !EndsEmpty([root])
         && if Full([root]) then st == Stats(Dirs(all), Files(all), 0, Bytes(all)) else Counted(st) > |all|)
  {
    hide Image, WalkBytes, Good, EndsEmpty, CheckVisitor, ListAt, U32At, Adler.Checksum, Full, Preorder;
    ImageHolds(root);
    TreeWalk(root, utf8, fuel);
    var r := WalkBytes(Image(root), 16, CheckVisitor(utf8), Stats(0, 0, 0, 0), fuel).value;
    if r.1 == Ok(None) { TreeCounts(root, utf8, fuel, r.0); }
  }

  /** Damage to any single byte of an image behind its checksum is found, before the check follows any pointer. */
  lemma DamageIsFound(root: Node, mem: seq<nat>, k: nat, utf8: seq<nat> -> bool, fuel: nat)
    requires Good(root) && |Image(root)| < U32 && Adler.AreBytes(Image(root)) && Adler.AreBytes(mem)
    requires 12 <= k < |Image(root)| == |mem| && mem[k] != Image(root)[k]
    requires forall i :: 0 <= i < |mem| && i != k ==> mem[i] == Image(root)[i]
    ensures CheckedIn(mem, utf8, fuel) == Some(Err(Invalid))
  {
    ImageHolds(root);
    var image := Image(root);
    hide Image, Adler.Checksum, Good, ListAt, Size, WalkBytes;
    Adler.ChangedByteShows(image[12..], mem[12..], k - 12);
  }

  // ---------- An image that is read for ever ----------

  /** An image with one empty file, "x", whose pointer leads to itself. */
  function LoopImage(): seq<nat> {
    var body := Zeros(4) + Header(File([0x78], []), 16);
    MAGIC + Le32(|body| - 4) + Le32(Adler.Checksum(body)) + body
  }

  lemma LoopImageHeader()
    ensures var mem := LoopImage();
      && |mem| == 48 && mem[0..4] == MAGIC && U32At(mem, 4) + 16 == |mem| && U32At(mem, 8) == Adler.Checksum(mem[12..])
      && mem[16..48] == Header(File([0x78], []), 16)
  {
    var n := File([0x78], []);
    HeaderSize(n, 16);
    hide Adler.Checksum, Le32, Header, U32At;
    var mem, body := LoopImage(), Zeros(4) + Header(n, 16);
    HeaderParts(MAGIC, Le32(|body| - 4), Le32(Adler.Checksum(body)), Zeros(4), Header(n, 16));
    FieldAt(mem, 4, |body| - 4);
    FieldAt(mem, 8, Adler.Checksum(body));
  }

  lemma HeaderSize(n: Node, next: nat)
    requires |n.name| <= NAME_LEN
    ensures |Header(n, next)| == HEADER_LEN
  {}

  lemma HeaderFields(n: Node, next: nat)
    requires |n.name| <= NAME_LEN
    ensures var w := Header(n, next);
      && |w| == 32 && w[0..4] == Le32(next + TypeCode(n)) && w[4..8] == Le32(Length(n)) && w[8..12] == Le32(Csum(n))
      && w[16..32] == Padded(n.name)
  {
    assert |Padded(n.name)| == 16;
    hide Le32, Csum, TypeCode, Length, Padded, Zeros;
    var w := Header(n, next);
    assert w + [] == w;
    Parts(Le32(next + TypeCode(n)), Le32(Length(n)), Le32(Csum(n)), Zeros(4), Padded(n.name), []);
  }

  lemma LoopFields(mem: seq<nat>, n: Node)
    requires |mem| == 48 && n == File([0x78], []) && mem[16..48] == Header(n, 16)
    ensures U32At(mem, 16) == 16 + FILE && U32At(mem, 20) == 0 && U32At(mem, 24) == Adler.Checksum([])
    ensures mem[32..48] == Padded([0x78]) && mem[16] % 16 == FILE
  {
    HeaderFields(n, 16);
    hide Header, Padded, Le32, U32At, Adler.Checksum;
    var w := Header(n, 16);
    SliceOf(mem, 16, w, 0, 4);
    SliceOf(mem, 16, w, 4, 8);
    SliceOf(mem, 16, w, 8, 12);
    SliceOf(mem, 16, w, 16, 32);
    FieldAt(mem, 16, 16 + FILE);
    FieldAt(mem, 20, 0);
    FieldAt(mem, 24, Adler.Checksum([]));
    FirstByte(16 + FILE);
    assert mem[16] == mem[16..20][0];
  }

  lemma LoopEntry(mem: seq<nat>, utf8: seq<nat> -> bool)
    requires mem == LoopImage()
    ensures |mem| == 48 && EntryAt(mem, 16) == Ok(16) && Next(mem, 16) == 16
    ensures View(mem, 16).name == [0x78] && Sound(mem, utf8, 16)
  {
    LoopImageHeader();
    LoopFields(mem, File([0x78], []));
    NameRoundTrip([0x78], 15);
    NextAndType(16 + FILE, 16, FILE);
    assert mem[48..48] == [];
    hide LoopImage, U32At, UpToNul, Adler.Checksum;
  }

  /**
   * An image whose header and checksum are right, and of which no visit ever ends that goes past its
   * entry: neither the check, nor a lookup of anything else.
   */
  lemma EndlessVisit(utf8: seq<nat> -> bool, path: Path, fuel: nat)
    requires path != [] && path[0] != [0x78]
    ensures var mem := LoopImage();
      && |mem| == 48 && mem[0..4] == MAGIC && U32At(mem, 4) + 16 == |mem|
      && CheckedIn(mem, utf8, fuel).None? && FoundIn(mem, path, fuel).None?
  {
    var mem := LoopImage();
    LoopImageHeader();
    LoopEntry(mem, utf8);
    hide LoopImage, U32At, View, Next, Sound, Adler.Checksum, CheckVisitor, WalkBytes, TypeAt, Clean;
    assert Leads(mem, 16, 16);
    assert ReturningWay(mem, utf8, [16, 16], 0);
    CheckEndsIff(mem, 16, utf8, Stats(0, 0, 0, 0), fuel);
    CircleOutruns(mem, [16, 16], path, 0, fuel);
  }
}
