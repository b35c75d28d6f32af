/**
 * When a visit of a filesystem image ends. The bytes may be anything: what the reader follows are the
 * pointers that it finds in them.
 */
module CartFsVisits {
  import opened Arith
  import opened Wrappers
  import opened CartImage
  import opened CartFs
  import Adler

  // ---------- Where the pointers lead ----------

  predicate IsDir(mem: seq<nat>, p: nat)
    requires p + HEADER_LEN <= |mem|
  {
    TypeAt(mem, p) == Ok(DirectoryType)
  }

  /** There is an entry at `p`; its pointer leads to `q`, or it is a directory and its entries begin at `q`. */
  predicate Leads(mem: seq<nat>, p: nat, q: nat) {
    && EntryAt(mem, p).Ok? && q != 0
    && (q == Next(mem, p) || (IsDir(mem, p) && q == p + HEADER_LEN))
  }

  ghost predicate Way(mem: seq<nat>, ps: seq<nat>) {
    ps != [] && forall i :: 0 <= i < |ps| - 1 ==> Leads(mem, ps[i], ps[i + 1])
  }

  ghost predicate WayTo(mem: seq<nat>, ps: seq<nat>, p: nat, q: nat) {
    Way(mem, ps) && ps[0] == p && ps[|ps| - 1] == q
  }

  ghost predicate Reaches(mem: seq<nat>, p: nat, q: nat) { exists ps :: WayTo(mem, ps, p, q) }

  lemma ReachesSelf(mem: seq<nat>, p: nat)
    ensures Reaches(mem, p, p)
  {
    assert WayTo(mem, [p], p, p);
  }

  lemma ReachesFurther(mem: seq<nat>, p: nat, q: nat, r: nat)
    requires Leads(mem, p, q) && Reaches(mem, q, r)
    ensures Reaches(mem, p, r)
  {
    hide Leads;
    var ps :| WayTo(mem, ps, q, r);
    var qs := [p] + ps;
    forall i | 0 <= i < |qs| - 1 ensures Leads(mem, qs[i], qs[i + 1]) {
      if i > 0 { assert qs[i] == ps[i - 1] && qs[i + 1] == ps[i]; }
    }
    assert WayTo(mem, qs, p, r);
  }

  // ---------- Pointers that lead forward ----------

  /** No pointer that is reached from `pos` leads back, or to its own entry. */
  ghost predicate Forward(mem: seq<nat>, pos: nat) {
    forall q :: Reaches(mem, pos, q) ==> LeadsForward(mem, q)
  }

  predicate LeadsForward(mem: seq<nat>, q: nat) {
    EntryAt(mem, q).Ok? ==> Next(mem, q) == 0 || Next(mem, q) > q
  }

  lemma Onward(mem: seq<nat>, p: nat, q: nat)
    requires Leads(mem, p, q) && LeadsForward(mem, p)
    ensures q >= p + 16
  {
    if q == Next(mem, p) {
      var k := U32At(mem, p) / 16;
      assert p == 16 * (p / 16) && q == 16 * k;
      hide U32At;
    }
  }

  lemma ForwardFurther(mem: seq<nat>, p: nat, q: nat)
    requires Forward(mem, p) && Leads(mem, p, q)
    ensures Forward(mem, q) && q >= p + 16
  {
    hide Leads, LeadsForward, Reaches;
    ReachesSelf(mem, p);
    Onward(mem, p, q);
    forall r | Reaches(mem, q, r) ensures LeadsForward(mem, r) { ReachesFurther(mem, p, q, r); }
  }

  /** If the pointers lead forward, then any visit ends, and within as many of them as entries have room. */
  lemma {:induction false} ForwardEnds<S>(mem: seq<nat>, pos: nat, v: Visitor<S>, s: S, fuel: nat)
    requires Forward(mem, pos) && fuel > 0 && pos + 16 * fuel + 16 > |mem|
    ensures WalkBytes(mem, pos, v, s, fuel).Some?
    decreases fuel
  {
    hide View, Forward;
    if EntryAt(mem, pos).Ok? {
      var (s1, r) := v(s, View(mem, pos));
      var next := Next(mem, pos);
      if next != 0 {
        assert Leads(mem, pos, next);
        ForwardFurther(mem, pos, next);
        if r == Ok(Ignore) || r == Ok(Recurse) { ForwardEnds(mem, next, v, s1, fuel - 1); }
      }
      if r == Ok(Recurse) && IsDir(mem, pos) {
        assert Leads(mem, pos, pos + HEADER_LEN);
        ForwardFurther(mem, pos, pos + HEADER_LEN);
        ForwardEnds(mem, pos + HEADER_LEN, v, s1, fuel - 1);
        var inner := WalkBytes(mem, pos + HEADER_LEN, v, s1, fuel - 1);
        if next != 0 { ForwardEnds(mem, next, v, inner.value.0, fuel - 1); }
      }
    }
  }

  // ---------- Where a visit goes ----------

  /** A visit about to look at the entry at `pos`. */
  datatype Stop<S> = Stop(pos: nat, state: S)

  ghost predicate Leaves<S(!new)>(mem: seq<nat>, pos: nat, v: Visitor<S>, s: S, s': S) {
    exists fuel: nat :: WalkBytes(mem, pos, v, s, fuel) == Some((s', Ok(None)))
  }

  /** The visit goes on from `a` to `b`: into a directory, or to the next entry once it is out of it again. */
  ghost predicate Goes<S(!new)>(mem: seq<nat>, v: Visitor<S>, a: Stop<S>, b: Stop<S>) {
    && EntryAt(mem, a.pos).Ok? && b.pos != 0
    && var (s1, r) := v(a.state, View(mem, a.pos));
       if r == Ok(Recurse) && IsDir(mem, a.pos) then
         || b == Stop(a.pos + HEADER_LEN, s1)
         || (b.pos == Next(mem, a.pos) && Leaves(mem, a.pos + HEADER_LEN, v, s1, b.state))
       else
         (r == Ok(Recurse) || r == Ok(Ignore)) && b == Stop(Next(mem, a.pos), s1)
  }

  ghost predicate Trail<S(!new)>(mem: seq<nat>, v: Visitor<S>, cs: seq<Stop<S>>) {
    cs != [] && cs[0].pos != 0 && forall i :: 0 <= i < |cs| - 1 ==> Goes(mem, v, cs[i], cs[i + 1])
  }

  ghost predicate Endless<S(!new)>(mem: seq<nat>, v: Visitor<S>, c: Stop<S>) {
    forall fuel: nat :: WalkBytes(mem, c.pos, v, c.state, fuel).None?
  }

  lemma SameResult<S>(mem: seq<nat>, pos: nat, v: Visitor<S>, s: S, fuel: nat, other: nat)
    requires WalkBytes(mem, pos, v, s, fuel).Some? && WalkBytes(mem, pos, v, s, other).Some?
    ensures WalkBytes(mem, pos, v, s, fuel) == WalkBytes(mem, pos, v, s, other)
  {
    if fuel <= other { MoreFuel(mem, pos, v, s, fuel, other); } else { MoreFuel(mem, pos, v, s, other, fuel); }
  }

  lemma GoesEndless<S(!new)>(mem: seq<nat>, v: Visitor<S>, a: Stop<S>, b: Stop<S>)
    requires Goes(mem, v, a, b) && Endless(mem, v, b)
    ensures Endless(mem, v, a)
  {
    hide View, Next;
    forall fuel: nat ensures WalkBytes(mem, a.pos, v, a.state, fuel).None? {
      if fuel > 0 {
        var (s1, r) := v(a.state, View(mem, a.pos));
        if r == Ok(Recurse) && IsDir(mem, a.pos) && b != Stop(a.pos + HEADER_LEN, s1) {
          var other: nat :| WalkBytes(mem, a.pos + HEADER_LEN, v, s1, other) == Some((b.state, Ok(None)));
          if WalkBytes(mem, a.pos + HEADER_LEN, v, s1, fuel - 1).Some? {
            SameResult(mem, a.pos + HEADER_LEN, v, s1, fuel - 1, other);
          }
        }
        assert WalkBytes(mem, b.pos, v, b.state, fuel - 1).None?;
      }
    }
  }

  /** A visit that gets to where it does not end does not end. */
  lemma {:induction false} TrailEndless<S(!new)>(mem: seq<nat>, v: Visitor<S>, cs: seq<Stop<S>>)
    requires Trail(mem, v, cs) && Endless(mem, v, cs[|cs| - 1])
    ensures Endless(mem, v, cs[0])
    decreases |cs|
  {
    hide Goes, Endless;
    if |cs| > 1 {
      assert Goes(mem, v, cs[0], cs[1]);
      assert cs[1].pos != 0 by { GoesSomewhere(mem, v, cs[0], cs[1]); }
      forall i | 0 <= i < |cs[1..]| - 1 ensures Goes(mem, v, cs[1..][i], cs[1..][i + 1]) {
        assert Goes(mem, v, cs[i + 1], cs[i + 1 + 1]);
      }
      TrailEndless(mem, v, cs[1..]);
      GoesEndless(mem, v, cs[0], cs[1]);
    }
  }

  lemma GoesSomewhere<S(!new)>(mem: seq<nat>, v: Visitor<S>, a: Stop<S>, b: Stop<S>)
    requires Goes(mem, v, a, b)
    ensures EntryAt(mem, a.pos).Ok? && a.pos != 0 && b.pos != 0
  {}

  /** A visit that has not ended after `fuel` pointers has followed as many. */
  lemma {:induction false} OutrunTrail<S(!new)>(mem: seq<nat>, pos: nat, v: Visitor<S>, s: S, fuel: nat)
    returns (cs: seq<Stop<S>>)
    requires WalkBytes(mem, pos, v, s, fuel).None?
    ensures Trail(mem, v, cs) && |cs| == fuel + 1 && cs[0] == Stop(pos, s)
    decreases fuel
  {
    hide View, Next, Goes, Leaves;
    if fuel == 0 {
      cs := [Stop(pos, s)];
    } else {
      var rest;
      var (s1, r) := v(s, View(mem, pos));
      if r == Ok(Recurse) && IsDir(mem, pos) {
        var inner := WalkBytes(mem, pos + HEADER_LEN, v, s1, fuel - 1);
        if inner.None? {
          rest := OutrunTrail(mem, pos + HEADER_LEN, v, s1, fuel - 1);
          GoesInto(mem, v, pos, s);
        } else {
          rest := OutrunTrail(mem, Next(mem, pos), v, inner.value.0, fuel - 1);
          GoesPast(mem, v, pos, s, fuel - 1);
        }
      } else {
        rest := OutrunTrail(mem, Next(mem, pos), v, s1, fuel - 1);
        GoesNext(mem, v, pos, s);
      }
      cs := [Stop(pos, s)] + rest;
      forall i | 0 <= i < |cs| - 1 ensures Goes(mem, v, cs[i], cs[i + 1]) {
        if i > 0 { assert cs[i] == rest[i - 1] && cs[i + 1] == rest[i - 1 + 1]; }
      }
    }
  }

  lemma GoesInto<S(!new)>(mem: seq<nat>, v: Visitor<S>, pos: nat, s: S)
    requires EntryAt(mem, pos).Ok? && IsDir(mem, pos) && v(s, View(mem, pos)).1 == Ok(Recurse)
    ensures Goes(mem, v, Stop(pos, s), Stop(pos + HEADER_LEN, v(s, View(mem, pos)).0))
  {}

  lemma GoesPast<S(!new)>(mem: seq<nat>, v: Visitor<S>, pos: nat, s: S, fuel: nat)
    requires EntryAt(mem, pos).Ok? && IsDir(mem, pos) && v(s, View(mem, pos)).1 == Ok(Recurse) && Next(mem, pos) != 0
    requires var inner := WalkBytes(mem, pos + HEADER_LEN, v, v(s, View(mem, pos)).0, fuel);
      inner.Some? && inner.value.1 == Ok(None)
    ensures var inner := WalkBytes(mem, pos + HEADER_LEN, v, v(s, View(mem, pos)).0, fuel);
      Goes(mem, v, Stop(pos, s), Stop(Next(mem, pos), inner.value.0))
  {
    hide View, Next;
    var s1 := v(s, View(mem, pos)).0;
    var inner := WalkBytes(mem, pos + HEADER_LEN, v, s1, fuel);
    assert inner == Some((inner.value.0, Ok(None)));
    assert Leaves(mem, pos + HEADER_LEN, v, s1, inner.value.0);
  }

  lemma GoesNext<S(!new)>(mem: seq<nat>, v: Visitor<S>, pos: nat, s: S)
    requires EntryAt(mem, pos).Ok? && Next(mem, pos) != 0
    requires var r := v(s, View(mem, pos)).1; r == Ok(Ignore) || (r == Ok(Recurse) && !IsDir(mem, pos))
    ensures Goes(mem, v, Stop(pos, s), Stop(Next(mem, pos), v(s, View(mem, pos)).0))
  {}

  lemma {:induction false} Pigeonhole(xs: seq<nat>, k: nat) returns (i: nat, j: nat)
    requires |xs| > k && forall x :: x in xs ==> x < k
    ensures i < j < |xs| && xs[i] == xs[j]
    decreases k
  {
    assert xs[0] in xs;
    if p :| 0 <= p < |xs| && xs[p] == k - 1 {
      if q :| 0 <= q < |xs| && q != p && xs[q] == k - 1 {
        i, j := if p < q then p else q, if p < q then q else p;
      } else {
        var ys := xs[..p] + xs[p + 1..];
        forall m | 0 <= m < |ys| ensures ys[m] < k - 1 {
          var m' := if m < p then m else m + 1;
          assert ys[m] == xs[m'] && xs[m'] in xs;
        }
        i, j := Pigeonhole(ys, k - 1);
        i, j := if i < p then i else i + 1, if j < p then j else j + 1;
      }
    } else {
      i, j := Pigeonhole(xs, k - 1);
    }
  }

  /** Only so many entries have room in an image. */
  lemma EntryNumber(mem: seq<nat>, p: nat)
    requires EntryAt(mem, p).Ok?
    ensures p / 16 < |mem| / 16 && p == p / 16 * 16
  {}

  // ---------- The check ----------

  /** The check can read the entry at `p`. */
  predicate Sound(mem: seq<nat>, utf8: seq<nat> -> bool, p: nat) {
    EntryAt(mem, p).Ok? && CheckOne(utf8, Stats(0, 0, 0, 0), View(mem, p)).1.Ok?
  }

  lemma SoundChecks(mem: seq<nat>, utf8: seq<nat> -> bool, p: nat, st: Stats)
    requires EntryAt(mem, p).Ok?
    ensures CheckVisitor(utf8)(st, View(mem, p)).1 == Ok(Recurse) <==> Sound(mem, utf8, p)
    ensures CheckVisitor(utf8)(st, View(mem, p)).1 == Ok(Recurse) || CheckVisitor(utf8)(st, View(mem, p)).1.Err?
  {}

  /** Whether there is a file, by its type code, and whether its contents have another checksum than it says. */
  predicate FileAt(mem: seq<nat>, p: nat) { p + HEADER_LEN <= |mem| && mem[p] % 16 == 2 }

  predicate BadFileAt(mem: seq<nat>, p: nat)
    requires FileAt(mem, p)
  {
    ContentsAt(mem, p).Ok? && Adler.Checksum(ContentsAt(mem, p).value) != U32At(mem, p + 8)
  }

  /**
   * What stops the check: a place without an entry, an entry of unknown type, a file that does not fit,
   * and a bad file whose name cannot be logged.
   */
  lemma SoundIff(mem: seq<nat>, utf8: seq<nat> -> bool, p: nat)
    ensures Sound(mem, utf8, p) <==>
      && EntryAt(mem, p).Ok? && (mem[p] % 16 == 1 || mem[p] % 16 == 2)
      && (FileAt(mem, p) ==>
            ContentsAt(mem, p).Ok? && (BadFileAt(mem, p) ==> utf8(UpToNul(mem[p + 16..p + 32]))))
  {
    hide Adler.Checksum, UpToNul, U32At;
  }

  /** The entries that the check looks at, in order, if nothing stops it. */
  function Visited(mem: seq<nat>, pos: nat, fuel: nat): seq<nat>
    decreases fuel
  {
    if pos == 0 || fuel == 0 || EntryAt(mem, pos).Err? then []
    else
      [pos] + (if IsDir(mem, pos) then Visited(mem, pos + HEADER_LEN, fuel - 1) else [])
        + Visited(mem, Next(mem, pos), fuel - 1)
  }

  /** What an entry adds to the counts: a directory, or a file, bad or not, and its length. */
  function CountsAs(mem: seq<nat>, p: nat): Stats {
    if !FileAt(mem, p) then Stats(1, 0, 0, 0)
    else Stats(0, 1, if BadFileAt(mem, p) then 1 else 0, U32At(mem, p + 4))
  }

  function Plus(a: Stats, b: Stats): Stats {
    Stats(a.dirCount + b.dirCount, a.fileCount + b.fileCount, a.badFiles + b.badFiles, a.fileBytes + b.fileBytes)
  }

  function Tally(mem: seq<nat>, ps: seq<nat>): Stats {
    if ps == [] then Stats(0, 0, 0, 0) else Plus(CountsAs(mem, ps[0]), Tally(mem, ps[1..]))
  }

  lemma {:induction false} TallyAppend(mem: seq<nat>, a: seq<nat>, b: seq<nat>)
    ensures Tally(mem, a + b) == Plus(Tally(mem, a), Tally(mem, b))
    decreases |a|
  {
    hide CountsAs;
    if a == [] {
      assert a + b == b;
    } else {
      assert (a + b)[1..] == a[1..] + b;
      TallyAppend(mem, a[1..], b);
    }
  }

  /** On any bytes, a check that ends well has counted what it has met: directories, files, bad files and bytes. */
  lemma {:induction false} CheckCounts(mem: seq<nat>, pos: nat, utf8: seq<nat> -> bool, st: Stats, fuel: nat)
    requires var r := WalkBytes(mem, pos, CheckVisitor(utf8), st, fuel); r.Some? && r.value.1 == Ok(None)
    ensures WalkBytes(mem, pos, CheckVisitor(utf8), st, fuel).value.0 == Plus(st, Tally(mem, Visited(mem, pos, fuel)))
    decreases fuel
  {
    hide View, Next, CheckVisitor, Tally, TypeAt;
    if pos == 0 {
      TallyNone(mem);
    } else {
      var v, next := CheckVisitor(utf8), Next(mem, pos);
      SoundChecks(mem, utf8, pos, st);
      CheckTallies(mem, utf8, pos, st);
      var st1 := v(st, View(mem, pos)).0;
      var inside := if IsDir(mem, pos) then Visited(mem, pos + HEADER_LEN, fuel - 1) else [];
      TallyNone(mem);
      if IsDir(mem, pos) {
        CheckCounts(mem, pos + HEADER_LEN, utf8, st1, fuel - 1);
        CheckCounts(mem, next, utf8, WalkBytes(mem, pos + HEADER_LEN, v, st1, fuel - 1).value.0, fuel - 1);
      } else {
        CheckCounts(mem, next, utf8, st1, fuel - 1);
      }
      TallyAppend(mem, [pos] + inside, Visited(mem, next, fuel - 1));
      TallyAppend(mem, [pos], inside);
    }
  }

  lemma TallyNone(mem: seq<nat>)
    ensures Tally(mem, []) == Stats(0, 0, 0, 0)
  {}

  lemma CheckTallies(mem: seq<nat>, utf8: seq<nat> -> bool, p: nat, st: Stats)
    requires EntryAt(mem, p).Ok? && CheckVisitor(utf8)(st, View(mem, p)).1 == Ok(Recurse)
    ensures CheckVisitor(utf8)(st, View(mem, p)).0 == Plus(st, Tally(mem, [p]))
  {
    TallyOne(mem, p);
    ContentsLength(mem, p);
    CheckAdds(utf8, st, View(mem, p));
    hide Adler.Checksum, UpToNul, U32At, Tally, ContentsAt, EntryAt, CheckOne;
  }

  /** What an entry that does not stop the check adds to its counts. */
  lemma CheckAdds(utf8: seq<nat> -> bool, st: Stats, e: Entry)
    requires CheckOne(utf8, st, e).1 == Ok(Recurse)
    ensures e.ty.Ok? && (e.ty.value.FileType? ==> e.contents.Ok?)
    ensures CheckOne(utf8, st, e).0
         == Plus(st, if e.ty.value.DirectoryType? then Stats(1, 0, 0, 0)
                     else Stats(0, 1, if Adler.Checksum(e.contents.value) != e.csum then 1 else 0,
                                |e.contents.value|))
  {
    hide Adler.Checksum;
  }

  lemma TallyOne(mem: seq<nat>, p: nat)
    ensures Tally(mem, [p]) == CountsAs(mem, p)
  {
    hide CountsAs;
    assert [p][1..] == [];
    TallyNone(mem);
  }

  lemma ContentsLength(mem: seq<nat>, p: nat)
    requires EntryAt(mem, p).Ok?
    ensures p + HEADER_LEN <= |mem|
    ensures ContentsAt(mem, p).Ok? ==> |ContentsAt(mem, p).value| == U32At(mem, p + 4)
  {}

  /** Nothing that is reached from `p` stops the check. */
  ghost predicate Clean(mem: seq<nat>, utf8: seq<nat> -> bool, p: nat) {
    forall q :: Reaches(mem, p, q) ==> Sound(mem, utf8, q)
  }

  /** The check comes from `p` to `q`: unless something in a directory stops it before. */
  ghost predicate Checks(mem: seq<nat>, utf8: seq<nat> -> bool, p: nat, q: nat) {
    && Sound(mem, utf8, p) && Leads(mem, p, q)
    && (IsDir(mem, p) && q != p + HEADER_LEN ==> Clean(mem, utf8, p + HEADER_LEN))
  }

  ghost predicate CheckWay(mem: seq<nat>, utf8: seq<nat> -> bool, ps: seq<nat>) {
    ps != [] && forall i :: 0 <= i < |ps| - 1 ==> Checks(mem, utf8, ps[i], ps[i + 1])
  }

  /** The way of the check from `pos` comes back to an entry that it has passed. */
  ghost predicate CheckReturns(mem: seq<nat>, utf8: seq<nat> -> bool, pos: nat) {
    exists ps, i :: ReturningWay(mem, utf8, ps, i) && ps[0] == pos
  }

  ghost predicate ReturningWay(mem: seq<nat>, utf8: seq<nat> -> bool, ps: seq<nat>, i: nat) {
    CheckWay(mem, utf8, ps) && i < |ps| - 1 && ps[i] == ps[|ps| - 1]
  }

  lemma CleanFurther(mem: seq<nat>, utf8: seq<nat> -> bool, p: nat, q: nat)
    requires Clean(mem, utf8, p) && Leads(mem, p, q)
    ensures Clean(mem, utf8, q)
  {
    forall r | Reaches(mem, q, r) ensures Sound(mem, utf8, r) { ReachesFurther(mem, p, q, r); }
  }

  /** Where nothing stops the check, it comes to an end or does not end. */
  lemma {:induction false} CleanLeaves(mem: seq<nat>, pos: nat, utf8: seq<nat> -> bool, st: Stats, fuel: nat)
    requires pos != 0 ==> Clean(mem, utf8, pos)
    ensures var r := WalkBytes(mem, pos, CheckVisitor(utf8), st, fuel); r.Some? ==> r.value.1 == Ok(None)
    decreases fuel
  {
    hide View, Next, CheckVisitor, Clean, Sound;
    if pos != 0 && fuel > 0 {
      assert Sound(mem, utf8, pos) by { ReachesSelf(mem, pos); CleanSound(mem, utf8, pos, pos); }
      SoundEntry(mem, utf8, pos);
      SoundChecks(mem, utf8, pos, st);
      var st1 := CheckVisitor(utf8)(st, View(mem, pos)).0;
      var next := Next(mem, pos);
      if next != 0 { CleanFurther(mem, utf8, pos, next); }
      if IsDir(mem, pos) {
        CleanFurther(mem, utf8, pos, pos + HEADER_LEN);
        CleanLeaves(mem, pos + HEADER_LEN, utf8, st1, fuel - 1);
        var inner := WalkBytes(mem, pos + HEADER_LEN, CheckVisitor(utf8), st1, fuel - 1);
        if inner.Some? { CleanLeaves(mem, next, utf8, inner.value.0, fuel - 1); }
      } else {
        CleanLeaves(mem, next, utf8, st1, fuel - 1);
      }
    }
  }

  lemma CleanSound(mem: seq<nat>, utf8: seq<nat> -> bool, p: nat, q: nat)
    requires Clean(mem, utf8, p) && Reaches(mem, p, q)
    ensures Sound(mem, utf8, q)
  {}

  lemma SoundEntry(mem: seq<nat>, utf8: seq<nat> -> bool, p: nat)
    requires Sound(mem, utf8, p)
    ensures EntryAt(mem, p) == Ok(p)
  {}

  /** Where the check comes to an end, it has not been stopped, wherever the pointers lead. */
  lemma {:induction false} LeavesSound(mem: seq<nat>, pos: nat, utf8: seq<nat> -> bool, st: Stats, fuel: nat,
                                       ps: seq<nat>)
    requires pos != 0 && Way(mem, ps) && ps[0] == pos
    requires var r := WalkBytes(mem, pos, CheckVisitor(utf8), st, fuel); r.Some? && r.value.1 == Ok(None)
    ensures Sound(mem, utf8, ps[|ps| - 1])
    decreases fuel
  {
    hide View, Next, CheckVisitor, Sound;
    SoundChecks(mem, utf8, pos, st);
    if |ps| > 1 {
      var st1 := CheckVisitor(utf8)(st, View(mem, pos)).0;
      assert Leads(mem, ps[0], ps[1]);
      forall i | 0 <= i < |ps[1..]| - 1 ensures Leads(mem, ps[1..][i], ps[1..][i + 1]) {
        assert Leads(mem, ps[i + 1], ps[i + 1 + 1]);
      }
      if IsDir(mem, pos) && ps[1] == pos + HEADER_LEN {
        LeavesSound(mem, ps[1], utf8, st1, fuel - 1, ps[1..]);
      } else if IsDir(mem, pos) {
        var inner := WalkBytes(mem, pos + HEADER_LEN, CheckVisitor(utf8), st1, fuel - 1);
        LeavesSound(mem, ps[1], utf8, inner.value.0, fuel - 1, ps[1..]);
      } else {
        LeavesSound(mem, ps[1], utf8, st1, fuel - 1, ps[1..]);
      }
    }
  }

  lemma LeavesClean(mem: seq<nat>, pos: nat, utf8: seq<nat> -> bool, st: Stats, st': Stats)
    requires pos != 0 && Leaves(mem, pos, CheckVisitor(utf8), st, st')
    ensures Clean(mem, utf8, pos)
  {
    hide Sound, CheckVisitor, Leads;
    var fuel: nat :| WalkBytes(mem, pos, CheckVisitor(utf8), st, fuel) == Some((st', Ok(None)));
    forall q | Reaches(mem, pos, q) ensures Sound(mem, utf8, q) {
      var ps :| WayTo(mem, ps, pos, q);
      LeavesSound(mem, pos, utf8, st, fuel, ps);
    }
  }

  lemma GoesChecks(mem: seq<nat>, utf8: seq<nat> -> bool, a: Stop<Stats>, b: Stop<Stats>)
    requires Goes(mem, CheckVisitor(utf8), a, b)
    ensures Checks(mem, utf8, a.pos, b.pos)
  {
    hide View, Next, CheckVisitor, Sound, Clean, Leaves;
    SoundChecks(mem, utf8, a.pos, a.state);
    var st1 := CheckVisitor(utf8)(a.state, View(mem, a.pos)).0;
    if IsDir(mem, a.pos) && b.pos != a.pos + HEADER_LEN {
      LeavesClean(mem, a.pos + HEADER_LEN, utf8, st1, b.state);
    }
  }

  /** The check of what begins at `pos` takes more fuel, whatever has been counted. */
  ghost predicate Outruns(mem: seq<nat>, utf8: seq<nat> -> bool, pos: nat, fuel: nat) {
    forall st :: OutrunsFrom(mem, utf8, pos, st, fuel)
  }

  predicate OutrunsFrom(mem: seq<nat>, utf8: seq<nat> -> bool, pos: nat, st: Stats, fuel: nat) {
    WalkBytes(mem, pos, CheckVisitor(utf8), st, fuel).None?
  }

  /** If the check of all that is behind `p` takes more fuel, then so does that of `p`. */
  lemma ChecksOutrun(mem: seq<nat>, utf8: seq<nat> -> bool, p: nat, q: nat, fuel: nat)
    requires Checks(mem, utf8, p, q) && fuel > 0 && Outruns(mem, utf8, q, fuel - 1)
    ensures Outruns(mem, utf8, p, fuel)
  {
    hide View, Next, CheckVisitor, Sound, Clean;
    SoundEntry(mem, utf8, p);
    forall st ensures OutrunsFrom(mem, utf8, p, st, fuel) {
      SoundChecks(mem, utf8, p, st);
      var st1 := CheckVisitor(utf8)(st, View(mem, p)).0;
      assert OutrunsFrom(mem, utf8, q, st1, fuel - 1);
      if IsDir(mem, p) && q != p + HEADER_LEN {
        CleanLeaves(mem, p + HEADER_LEN, utf8, st1, fuel - 1);
        var inner := WalkBytes(mem, p + HEADER_LEN, CheckVisitor(utf8), st1, fuel - 1);
        if inner.Some? { assert OutrunsFrom(mem, utf8, q, inner.value.0, fuel - 1); }
      }
    }
  }

  lemma {:induction false} ReturnsOutrun(mem: seq<nat>, utf8: seq<nat> -> bool, ps: seq<nat>, i: nat, j: nat, fuel: nat)
    requires ReturningWay(mem, utf8, ps, i) && j < |ps|
    ensures Outruns(mem, utf8, ps[j], fuel)
    decreases fuel
  {
    hide Checks, Outruns, EntryAt;
    var k := if j == |ps| - 1 then i else j;
    assert Checks(mem, utf8, ps[k], ps[k + 1]);
    ChecksSomewhere(mem, utf8, ps[k], ps[k + 1]);
    if fuel > 0 {
      ReturnsOutrun(mem, utf8, ps, i, k + 1, fuel - 1);
      ChecksOutrun(mem, utf8, ps[k], ps[k + 1], fuel);
    } else {
      NoFuel(mem, utf8, ps[k]);
    }
  }

  lemma NoFuel(mem: seq<nat>, utf8: seq<nat> -> bool, pos: nat)
    requires pos != 0
    ensures Outruns(mem, utf8, pos, 0)
  {
    forall st ensures OutrunsFrom(mem, utf8, pos, st, 0) {}
  }

  lemma ChecksSomewhere(mem: seq<nat>, utf8: seq<nat> -> bool, p: nat, q: nat)
    requires Checks(mem, utf8, p, q)
    ensures p != 0 && EntryAt(mem, p).Ok?
  {}

  /**
   * The check goes on for ever if and only if its way comes back; else it ends, and within as many
   * pointers as entries have room.
   */
  lemma CheckEndsIff(mem: seq<nat>, pos: nat, utf8: seq<nat> -> bool, st: Stats, fuel: nat)
    ensures CheckReturns(mem, utf8, pos) ==> WalkBytes(mem, pos, CheckVisitor(utf8), st, fuel).None?
    ensures !CheckReturns(mem, utf8, pos) && fuel > |mem| / 16 ==>
      WalkBytes(mem, pos, CheckVisitor(utf8), st, fuel).Some?
  {
    hide CheckVisitor, Goes, Checks, EntryAt;
    if CheckReturns(mem, utf8, pos) {
      var ps, i :| ReturningWay(mem, utf8, ps, i) && ps[0] == pos;
      ReturnsOutrun(mem, utf8, ps, i, 0, fuel);
      assert OutrunsFrom(mem, utf8, pos, st, fuel);
    } else if fuel > |mem| / 16 && WalkBytes(mem, pos, CheckVisitor(utf8), st, fuel).None? {
      var cs := OutrunTrail(mem, pos, CheckVisitor(utf8), st, fuel);
      TrailReturns(mem, utf8, cs);
    }
  }

  lemma TrailReturns(mem: seq<nat>, utf8: seq<nat> -> bool, cs: seq<Stop<Stats>>)
    requires Trail(mem, CheckVisitor(utf8), cs) && |cs| > |mem| / 16 + 1
    ensures CheckReturns(mem, utf8, cs[0].pos)
  {
    hide CheckVisitor, Goes, Checks, EntryAt;
    var ps := seq(|cs|, m requires 0 <= m < |cs| => cs[m].pos);
    var numbers := seq(|cs| - 1, m requires 0 <= m < |cs| - 1 => ps[m] / 16);
    forall m | 0 <= m < |cs| - 1 ensures Checks(mem, utf8, ps[m], ps[m + 1]) && ps[m] == 16 * numbers[m] {
      GoesChecks(mem, utf8, cs[m], cs[m + 1]);
      ChecksSomewhere(mem, utf8, ps[m], ps[m + 1]);
      EntryNumber(mem, ps[m]);
    }
    forall x | x in numbers ensures x < |mem| / 16 {
      var m :| 0 <= m < |numbers| && numbers[m] == x;
      GoesSomewhere(mem, CheckVisitor(utf8), cs[m], cs[m + 1]);
      EntryNumber(mem, ps[m]);
    }
    var i, j := Pigeonhole(numbers, |mem| / 16);
    assert ReturningWay(mem, utf8, ps[..j + 1], i);
  }

  // ---------- Lookups ----------

  /** The entry at `p` is not the one that is looked for next. */
  predicate Passed(mem: seq<nat>, p: nat, path: Path) {
    EntryAt(mem, p).Ok? && (path == [] || View(mem, p).name != path[0])
  }

  /** Along the pointers alone `ps` leads back to where it began, past entries that are not looked for. */
  ghost predicate Circle(mem: seq<nat>, ps: seq<nat>, path: Path) {
    && |ps| > 1 && ps[0] == ps[|ps| - 1] != 0
    && forall i :: 0 <= i < |ps| - 1 ==> Passes(mem, ps[i], ps[i + 1], path)
  }

  predicate Passes(mem: seq<nat>, p: nat, q: nat, path: Path) {
    Passed(mem, p, path) && Next(mem, p) == q != 0
  }

  /** The lookup gets to a circle of pointers in which there is no entry that it looks for there. */
  ghost predicate LookupCircles(mem: seq<nat>, pos: nat, path: Path) {
    exists cs, ps :: CirclesAt(mem, cs, ps) && cs[0] == Stop(pos, path)
  }

  ghost predicate CirclesAt(mem: seq<nat>, cs: seq<Stop<Path>>, ps: seq<nat>) {
    Trail(mem, PathVisitor, cs) && ps != [] && cs[|cs| - 1].pos == ps[0] && Circle(mem, ps, cs[|cs| - 1].state)
  }

  lemma {:induction false} CircleOutruns(mem: seq<nat>, ps: seq<nat>, path: Path, j: nat, fuel: nat)
    requires Circle(mem, ps, path) && j < |ps|
    ensures WalkBytes(mem, ps[j], PathVisitor, path, fuel).None?
    decreases fuel
  {
    hide View, Next;
    var k := if j == |ps| - 1 then 0 else j;
    assert Passes(mem, ps[k], ps[k + 1], path);
    if fuel > 0 { CircleOutruns(mem, ps, path, k + 1, fuel - 1); }
  }

  /** What is left of a path is never more than it was. */
  lemma {:induction false} PathShrinks(mem: seq<nat>, pos: nat, path: Path, fuel: nat)
    ensures var r := WalkBytes(mem, pos, PathVisitor, path, fuel); r.Some? ==> |r.value.0| <= |path|
    decreases fuel
  {
    hide View, Next, TypeAt;
    if pos != 0 && fuel > 0 && EntryAt(mem, pos).Ok? {
      var path' := PathVisitor(path, View(mem, pos)).0;
      PathShrinks(mem, pos + HEADER_LEN, path', fuel - 1);
      PathShrinks(mem, Next(mem, pos), path', fuel - 1);
      var inner := WalkBytes(mem, pos + HEADER_LEN, PathVisitor, path', fuel - 1);
      if inner.Some? { PathShrinks(mem, Next(mem, pos), inner.value.0, fuel - 1); }
    }
  }

  lemma GoesShorter(mem: seq<nat>, a: Stop<Path>, b: Stop<Path>)
    requires Goes(mem, PathVisitor, a, b)
    ensures |b.state| < |a.state| || (b.state == a.state && Passes(mem, a.pos, b.pos, a.state))
  {
    hide View, Next;
    var (path', r) := PathVisitor(a.state, View(mem, a.pos));
    if r == Ok(Recurse) && IsDir(mem, a.pos) && b != Stop(a.pos + HEADER_LEN, path') {
      var fuel: nat :|
        WalkBytes(mem, a.pos + HEADER_LEN, PathVisitor, path', fuel) == Some((b.state, Ok(None)));
      PathShrinks(mem, a.pos + HEADER_LEN, path', fuel);
    }
  }

  lemma {:induction false} TrailShrinks(mem: seq<nat>, cs: seq<Stop<Path>>, i: nat, j: nat)
    requires Trail(mem, PathVisitor, cs) && i <= j < |cs|
    ensures |cs[j].state| <= |cs[i].state|
    decreases j
  {
    hide Goes;
    if i < j {
      TrailShrinks(mem, cs, i, j - 1);
      assert Goes(mem, PathVisitor, cs[j - 1], cs[j - 1 + 1]);
      GoesShorter(mem, cs[j - 1], cs[j]);
    }
  }

  /** Where a lookup has been at the same place with as much of the path left, it has gone in a circle. */
  lemma TrailCircles(mem: seq<nat>, cs: seq<Stop<Path>>, i: nat, j: nat)
    requires Trail(mem, PathVisitor, cs) && i < j < |cs| && cs[i].pos == cs[j].pos && |cs[i].state| == |cs[j].state|
    ensures LookupCircles(mem, cs[0].pos, cs[0].state)
  {
    hide Goes, Passes;
    forall m | i <= m < j
      ensures cs[m].state == cs[i].state && Passes(mem, cs[m].pos, cs[m + 1].pos, cs[i].state)
    {
      SameUpTo(mem, cs, i, m, j);
      StepPasses(mem, cs, i, m, j);
    }
    var ps := seq(j - i + 1, m requires 0 <= m <= j - i => cs[i + m].pos);
    forall m | 0 <= m < |ps| - 1 ensures Passes(mem, ps[m], ps[m + 1], cs[i].state) {
      assert Passes(mem, cs[i + m].pos, cs[i + m + 1].pos, cs[i].state);
    }
    assert ps[0] != 0 by { TrailSomewhere(mem, PathVisitor, cs, i); }
    TrailPrefix(mem, PathVisitor, cs, i + 1);
    assert CirclesAt(mem, cs[..i + 1], ps);
  }

  lemma StepPasses(mem: seq<nat>, cs: seq<Stop<Path>>, i: nat, m: nat, j: nat)
    requires Trail(mem, PathVisitor, cs) && i <= m < j < |cs| && |cs[i].state| == |cs[j].state|
    requires cs[m].state == cs[i].state
    ensures Passes(mem, cs[m].pos, cs[m + 1].pos, cs[i].state) && cs[m + 1].state == cs[i].state
  {
    hide Goes, Passes;
    assert Goes(mem, PathVisitor, cs[m], cs[m + 1]);
    GoesShorter(mem, cs[m], cs[m + 1]);
    TrailShrinks(mem, cs, m + 1, j);
  }

  lemma {:induction false} SameUpTo(mem: seq<nat>, cs: seq<Stop<Path>>, i: nat, m: nat, j: nat)
    requires Trail(mem, PathVisitor, cs) && i <= m <= j < |cs| && |cs[i].state| == |cs[j].state|
    ensures cs[m].state == cs[i].state
    decreases m
  {
    hide Trail;
    if i < m {
      SameUpTo(mem, cs, i, m - 1, j);
      StepPasses(mem, cs, i, m - 1, j);
    }
  }

  lemma TrailSomewhere<S(!new)>(mem: seq<nat>, v: Visitor<S>, cs: seq<Stop<S>>, i: nat)
    requires Trail(mem, v, cs) && i < |cs|
    ensures cs[i].pos != 0 && (i < |cs| - 1 ==> EntryAt(mem, cs[i].pos).Ok?)
  {
    hide Goes;
    if i < |cs| - 1 { GoesSomewhere(mem, v, cs[i], cs[i + 1]); }
    if i > 0 {
      assert Goes(mem, v, cs[i - 1], cs[i - 1 + 1]);
      GoesSomewhere(mem, v, cs[i - 1], cs[i]);
    }
  }

  lemma TrailPrefix<S(!new)>(mem: seq<nat>, v: Visitor<S>, cs: seq<Stop<S>>, n: nat)
    requires Trail(mem, v, cs) && 0 < n <= |cs|
    ensures Trail(mem, v, cs[..n])
  {
    hide Goes;
  }

  /**
   * A lookup goes on for ever if and only if it gets to a circle without what it looks for; else it
   * ends, and within as many pointers for each name of the path as entries have room.
   */
  lemma LookupEndsIff(mem: seq<nat>, pos: nat, path: Path, fuel: nat)
    ensures LookupCircles(mem, pos, path) ==> WalkBytes(mem, pos, PathVisitor, path, fuel).None?
    ensures !LookupCircles(mem, pos, path) && fuel > (|path| + 1) * (|mem| / 16) ==>
      WalkBytes(mem, pos, PathVisitor, path, fuel).Some?
  {
    hide Goes, EntryAt, Circle;
    if LookupCircles(mem, pos, path) {
      var cs: seq<Stop<Path>>, ps :| CirclesAt(mem, cs, ps) && cs[0] == Stop(pos, path);
      var end := cs[|cs| - 1];
      forall fuel: nat ensures WalkBytes(mem, end.pos, PathVisitor, end.state, fuel).None? {
        CircleOutruns(mem, ps, end.state, 0, fuel);
      }
      TrailEndless(mem, PathVisitor, cs);
    } else if fuel > (|path| + 1) * (|mem| / 16) && WalkBytes(mem, pos, PathVisitor, path, fuel).None? {
      var cs := OutrunTrail(mem, pos, PathVisitor, path, fuel);
      LongTrail(mem, cs);
    }
  }

  lemma LongTrail(mem: seq<nat>, cs: seq<Stop<Path>>)
    requires Trail(mem, PathVisitor, cs) && |cs| > (|cs[0].state| + 1) * (|mem| / 16) + 1
    ensures LookupCircles(mem, cs[0].pos, cs[0].state)
  {
    hide Goes, EntryAt, LookupCircles;
    var n, k := |cs[0].state| + 1, |mem| / 16;
    var numbers := seq(|cs| - 1, m requires 0 <= m < |cs| - 1 => cs[m].pos / 16 * n + |cs[m].state|);
    forall m | 0 <= m < |numbers|
      ensures cs[m].pos == 16 * (cs[m].pos / 16) && numbers[m] / n == cs[m].pos / 16
      ensures numbers[m] % n == |cs[m].state| && numbers[m] < n * k
    {
      TrailSomewhere(mem, PathVisitor, cs, m);
      EntryNumber(mem, cs[m].pos);
      TrailShrinks(mem, cs, 0, m);
      DivModUnique(numbers[m], n, cs[m].pos / 16, |cs[m].state|);
      MulLe(cs[m].pos / 16 + 1, k, n);
    }
    var i, j := Pigeonhole(numbers, n * k);
    TrailCircles(mem, cs, i, j);
  }
}
