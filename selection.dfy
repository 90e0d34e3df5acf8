/**
 * Pure operations on the ordered chip list `allSpans` of the group-creation
 * picker: the uid set it stands for, `ArrayList.remove(Object)`, and the
 * sweep that the text-change handler runs after the user deletes text.
 */
module Selection {
  import opened Chips

  /** The user ids the chips stand for: the key set `selectedContacts` must have. */
  function Uids(s: seq<Chip>): set<int>
  {
    set c | c in s
  }

  /** No user id appears on two chips. */
  predicate Distinct(s: seq<Chip>)
  {
    forall i, j :: 0 <= i < j < |s| ==> s[i] != s[j]
  }

  lemma UidsAppend(a: seq<Chip>, b: seq<Chip>)
    ensures Uids(a + b) == Uids(a) + Uids(b)
  {
    assert forall c :: c in a + b <==> c in a || c in b;
  }

  lemma DistinctCons(c: Chip, s: seq<Chip>)
    ensures Distinct([c] + s) <==> c !in Uids(s) && Distinct(s)
  {
    DistinctAppend([c], s);
    assert Uids([c]) == {c};
  }

  /** Two lists join without repeated uids exactly when each has none and they share none. */
  lemma DistinctAppend(a: seq<Chip>, b: seq<Chip>)
    ensures Distinct(a + b) <==> Distinct(a) && Distinct(b) && Uids(a) !! Uids(b)
  {
    var ab := a + b;
    if Distinct(ab) {
      forall i, j | 0 <= i < j < |a| ensures a[i] != a[j] {
        assert ab[i] == a[i] && ab[j] == a[j];
      }
      forall i, j | 0 <= i < j < |b| ensures b[i] != b[j] {
        assert ab[|a| + i] == b[i] && ab[|a| + j] == b[j];
      }
      forall u | u in Uids(a) ensures u !in Uids(b) {
        var i :| 0 <= i < |a| && a[i] == u;
        forall j | 0 <= j < |b| ensures b[j] != u {
          assert ab[i] == a[i] && ab[|a| + j] == b[j];
        }
      }
    }
    if Distinct(a) && Distinct(b) && Uids(a) !! Uids(b) {
      forall i, j | 0 <= i < j < |ab| ensures ab[i] != ab[j] {
        if j < |a| {
          assert ab[i] == a[i] && ab[j] == a[j];
        } else if i >= |a| {
          assert ab[i] == b[i - |a|] && ab[j] == b[j - |a|];
        } else {
          assert ab[i] == a[i] && ab[j] == b[j - |a|];
          assert a[i] in Uids(a) && b[j - |a|] in Uids(b);
        }
      }
    }
  }

  /** A list without repeated uids has exactly as many uids as chips. */
  lemma {:induction false} DistinctSize(s: seq<Chip>)
    requires Distinct(s)
    ensures |Uids(s)| == |s|
  {
    if s != [] {
      assert s == [s[0]] + s[1..];
      DistinctCons(s[0], s[1..]);
      DistinctSize(s[1..]);
      UidsAppend([s[0]], s[1..]);
      assert Uids([s[0]]) == {s[0]};
    }
  }

  /** `ArrayList.remove(Object)`: drop the first chip equal to `c`, if any. */
  function RemoveFirst(s: seq<Chip>, c: Chip): (r: seq<Chip>)
    ensures c in s ==> |r| == |s| - 1
    ensures c !in s ==> r == s
  {
    if s == [] then []
    else if s[0] == c then s[1..]
    else [s[0]] + RemoveFirst(s[1..], c)
  }

  /** Removing the first occurrence splices the list around it and keeps every other chip in order. */
  lemma {:induction false} RemoveFirstSplices(a: seq<Chip>, c: Chip, b: seq<Chip>)
    requires c !in a
    ensures RemoveFirst(a + [c] + b, c) == a + b
    decreases |a|
  {
    if a != [] {
      SpliceTail(a, c, b);
      RemoveFirstSplices(a[1..], c, b);
    }
  }

  lemma SpliceTail(a: seq<Chip>, c: Chip, b: seq<Chip>)
    requires a != []
    ensures (a + [c] + b)[0] == a[0] && (a + [c] + b)[1..] == a[1..] + [c] + b
    ensures a + b == [a[0]] + (a[1..] + b)
  {
  }

  lemma HeadTail(s: seq<Chip>)
    requires s != []
    ensures s == [s[0]] + s[1..]
    ensures multiset(s) == multiset{s[0]} + multiset(s[1..])
  {
  }

  /**
   * Deselecting user `u` from a list without repeated uids removes exactly the
   * chip at its position, keeps the others in order, and leaves a list whose
   * uids are the old ones minus `u`.
   */
  lemma DeselectSplices(s: seq<Chip>, i: nat)
    requires Distinct(s) && i < |s|
    ensures RemoveFirst(s, s[i]) == s[..i] + s[i + 1..]
    ensures Distinct(RemoveFirst(s, s[i]))
    ensures Uids(RemoveFirst(s, s[i])) == Uids(s) - {s[i]}
  {
    var c, pre, post := s[i], s[..i], s[i + 1..];
    assert c !in pre by {
      forall j | 0 <= j < i ensures pre[j] != c { assert pre[j] == s[j]; }
    }
    SplitAround(s, i);
    RemoveFirstSplices(pre, c, post);
    RemoveAtKeepsDistinct(s, i);
  }

  /** Cutting one chip out of a list without repeated uids loses exactly that uid. */
  lemma RemoveAtKeepsDistinct(s: seq<Chip>, i: nat)
    requires Distinct(s) && i < |s|
    ensures Distinct(s[..i] + s[i + 1..])
    ensures Uids(s[..i] + s[i + 1..]) == Uids(s) - {s[i]}
  {
    var r := s[..i] + s[i + 1..];
    assert forall k :: 0 <= k < |r| ==> r[k] == if k < i then s[k] else s[k + 1];
    forall a, b | 0 <= a < b < |r| ensures r[a] != r[b] {
      var a', b' := if a < i then a else a + 1, if b < i then b else b + 1;
      assert r[a] == s[a'] && r[b] == s[b'] && a' < b';
    }
    forall x ensures x in r <==> x in s && x != s[i] {
      if x in r {
        var k :| 0 <= k < |r| && r[k] == x;
        var k' := if k < i then k else k + 1;
        assert s[k'] == x && k' != i;
      }
      if x in s && x != s[i] {
        var k :| 0 <= k < |s| && s[k] == x;
        assert k != i;
        assert r[if k < i then k else k - 1] == x;
      }
    }
  }

  /** Selecting a new user and deselecting it again restores the chip list. */
  lemma SelectThenDeselect(s: seq<Chip>, u: int)
    requires u !in Uids(s)
    ensures RemoveFirst(s + [u], u) == s
  {
    assert u !in s;
    RemoveFirstSplices(s, u, []);
    assert s + [u] + [] == s + [u];
  }

  /**
   * Deleting a chip's span from a freshly rebuilt text leaves the rebuilt text
   * of the list without that chip: the deselect path keeps text and list in step.
   */
  lemma DeselectOnRebuiltText(s: seq<Chip>, i: nat)
    requires Distinct(s) && i < |s|
    ensures SpanStart(ChipText(s), s[i]) == 2 * i
    ensures SpanEnd(ChipText(s), s[i]) == 2 * i + 2
    ensures DeleteRange(ChipText(s), 2 * i, 2 * i + 2) == ChipText(RemoveFirst(s, s[i]))
  {
    ChipTextSpans(s, i);
    DeselectSplices(s, i);
    DeleteChipAt(s, i);
  }

  lemma DeleteChipAt(s: seq<Chip>, i: nat)
    requires i < |s|
    ensures DeleteRange(ChipText(s), 2 * i, 2 * i + 2) == ChipText(s[..i] + s[i + 1..])
  {
    var pre, c, post := s[..i], s[i], s[i + 1..];
    SplitAround(s, i);
    assert |pre| == i;
    var t := ChipText(pre + [c] + post);
    DeleteChipText(pre, c, post);
    assert DeleteRange(t, 2 * i, 2 * i + 2) == ChipText(pre + post);
  }

  /** Deleting the two slots of one chip from a rebuilt text gives the rebuilt text without it. */
  lemma DeleteChipText(pre: seq<Chip>, c: Chip, post: seq<Chip>)
    ensures DeleteRange(ChipText(pre + [c] + post), 2 * |pre|, 2 * |pre| + 2) == ChipText(pre + post)
  {
    ChipTextSplit(pre, c, post);
    ChipTextAppend(pre, post);
    DeleteMiddle(ChipText(pre), [Placeholder(c), Placeholder(c)], ChipText(post));
  }

  lemma DeleteMiddle(x: seq<Slot>, m: seq<Slot>, y: seq<Slot>)
    ensures DeleteRange(x + m + y, |x|, |x| + |m|) == x + y
  {
    var t := x + m + y;
    assert t[..|x|] == x;
    assert t[|x| + |m|..] == y;
  }

  // ---------------------------------------------------------------------------
  // The sweep run by afterTextChanged when the user has deleted text.
  //
  // The loop walks `allSpans` with an index that it increments on every pass,
  // also after `allSpans.remove(sp)` has shifted the next chip into the current
  // position. The chip right after a removed one is therefore never examined
  // in that pass. `Fates` records what happens to each chip.
  // ---------------------------------------------------------------------------

  /** What one sweep does to a chip: examined and kept, examined and removed, or passed over. */
  datatype Fate = Kept | Removed | Skipped

  /** The fate of every chip of `s`, position by position, when the text is `t`. */
  function Fates(s: seq<Chip>, t: seq<Slot>): (f: seq<Fate>)
    ensures |f| == |s|
    ensures |s| > 0 ==> f[0] != Skipped
    ensures forall i :: 0 <= i < |s| && f[i] == Removed ==> !InText(t, s[i])
    ensures forall i :: 0 <= i < |s| && f[i] == Kept ==> InText(t, s[i])
    ensures forall i :: 0 <= i < |s| && f[i] == Skipped ==> 0 < i && f[i - 1] == Removed
    ensures forall i :: 0 <= i < |s| - 1 && f[i] == Removed ==> f[i + 1] == Skipped
  {
    if |s| == 0 then []
    else if SpanStart(t, s[0]) == -1 then
      if |s| == 1 then [Removed] else [Removed] + [Skipped] + Fates(s[2..], t)
    else [Kept] + Fates(s[1..], t)
  }

  /** The chips whose fate is not `Removed`, in their original order. */
  function Survivors(s: seq<Chip>, f: seq<Fate>): (r: seq<Chip>)
    requires |f| == |s|
  {
    if |s| == 0 then []
    else (if f[0] == Removed then [] else [s[0]]) + Survivors(s[1..], f[1..])
  }

  /** The chips whose fate is `Removed`, in their original order. */
  function Casualties(s: seq<Chip>, f: seq<Fate>): (r: seq<Chip>)
    requires |f| == |s|
  {
    if |s| == 0 then []
    else (if f[0] == Removed then [s[0]] else []) + Casualties(s[1..], f[1..])
  }

  /**
   * `allSpans` after the sweep: some of the old chips in their old order,
   * which together with the dropped chips make up the old list.
   */
  function Sweep(s: seq<Chip>, t: seq<Slot>): (r: seq<Chip>)
    ensures Subsequence(r, s)
    ensures multiset(r) + multiset(Dropped(s, t)) == multiset(s)
  {
    SurvivorsInOrder(s, Fates(s, t));
    FatesPartition(s, Fates(s, t));
    Survivors(s, Fates(s, t))
  }

  /** The chips the sweep removes (their uids leave `selectedContacts`): every one of them had lost its span. */
  function Dropped(s: seq<Chip>, t: seq<Slot>): (r: seq<Chip>)
    ensures forall c :: c in r ==> !InText(t, c)
  {
    CasualtiesAreGone(s, Fates(s, t), t);
    Casualties(s, Fates(s, t))
  }

  /** Chips removed only when their span is gone leave only such chips among the casualties. */
  lemma {:induction false} CasualtiesAreGone(s: seq<Chip>, f: seq<Fate>, t: seq<Slot>)
    requires |f| == |s|
    requires forall i :: 0 <= i < |s| && f[i] == Removed ==> !InText(t, s[i])
    ensures forall c :: c in Casualties(s, f) ==> !InText(t, c)
  {
    if |s| > 0 {
      CasualtiesAreGone(s[1..], f[1..], t);
      assert Casualties(s, f) == (if f[0] == Removed then [s[0]] else []) + Casualties(s[1..], f[1..]);
    }
  }

  /** One pass of the loop body, as the sweep sees it. */
  lemma SweepStep(s: seq<Chip>, t: seq<Slot>)
    requires |s| > 0
    ensures InText(t, s[0]) ==>
      Sweep(s, t) == [s[0]] + Sweep(s[1..], t) && Dropped(s, t) == Dropped(s[1..], t)
    ensures !InText(t, s[0]) && |s| == 1 ==> Sweep(s, t) == [] && Dropped(s, t) == [s[0]]
    ensures !InText(t, s[0]) && |s| > 1 ==>
      Sweep(s, t) == [s[1]] + Sweep(s[2..], t) && Dropped(s, t) == [s[0]] + Dropped(s[2..], t)
  {
    var f := Fates(s, t);
    if InText(t, s[0]) {
      assert f == [Kept] + Fates(s[1..], t);
      assert f[1..] == Fates(s[1..], t);
    } else if |s| == 1 {
      assert f == [Removed];
      assert Survivors(s, f) == [] + Survivors([], []);
      assert Casualties(s, f) == [s[0]] + Casualties([], []);
    } else {
      var g := Fates(s[2..], t);
      assert f == [Removed] + [Skipped] + g;
      assert s[1..][1..] == s[2..] && f[1..][1..] == g;
      assert Survivors(s, f) == Survivors(s[1..], f[1..]);
      assert Survivors(s[1..], f[1..]) == [s[1]] + Survivors(s[2..], g);
      assert Casualties(s, f) == [s[0]] + Casualties(s[1..], f[1..]);
      assert Casualties(s[1..], f[1..]) == Casualties(s[2..], g);
    }
  }

  /**
   * The reconciliation loop run from index `a` of the list `spans` it walks:
   * the list it leaves behind and the chips it removes on the way. A removal
   * shifts the rest of the list down and the index still advances.
   */
  ghost function LoopRun(spans: seq<Chip>, a: nat, t: seq<Slot>): (r: (seq<Chip>, seq<Chip>))
    ensures |r.0| + |r.1| == |spans|
    ensures forall c :: c in r.1 ==> !InText(t, c)
    decreases |spans| - a
  {
    if a >= |spans| then (spans, [])
    else if SpanStart(t, spans[a]) == -1 then
      var rest := LoopRun(RemoveFirst(spans, spans[a]), a + 1, t);
      (rest.0, [spans[a]] + rest.1)
    else LoopRun(spans, a + 1, t)
  }

  /** A chip kept by the loop moves from the unvisited part to the visited part. */
  lemma LoopRunKeeps(p: seq<Chip>, r: seq<Chip>, t: seq<Slot>)
    requires |r| > 0 && SpanStart(t, r[0]) != -1
    ensures LoopRun(p + r, |p|, t) == LoopRun((p + [r[0]]) + r[1..], |p| + 1, t)
  {
    var spans := p + r;
    assert spans[|p|] == r[0];
    assert LoopRun(spans, |p|, t) == LoopRun(spans, |p| + 1, t);
    ShiftOne(p, r);
  }

  /** Moving the first chip of the unvisited part to the visited part leaves the list as it is. */
  lemma ShiftOne(p: seq<Chip>, r: seq<Chip>)
    requires |r| > 0
    ensures p + r == (p + [r[0]]) + r[1..]
  {
    assert r == [r[0]] + r[1..];
  }

  /** Removing the chip at the index shifts the next one into its place, which the index then passes. */
  lemma LoopRunRemoves(p: seq<Chip>, r: seq<Chip>, t: seq<Slot>)
    requires |r| > 0 && SpanStart(t, r[0]) == -1 && r[0] !in p
    ensures |r| == 1 ==> LoopRun(p + r, |p|, t) == (p, [r[0]])
    ensures |r| > 1 ==>
      var rest := LoopRun((p + [r[1]]) + r[2..], |p| + 1, t);
      LoopRun(p + r, |p|, t) == (rest.0, [r[0]] + rest.1)
  {
    var spans := p + r;
    assert spans[|p|] == r[0];
    ShiftOne(p, r);
    RemoveFirstSplices(p, r[0], r[1..]);
    var shorter := RemoveFirst(spans, r[0]);
    assert shorter == p + r[1..];
    var rest := LoopRun(shorter, |p| + 1, t);
    assert LoopRun(spans, |p|, t) == (rest.0, [r[0]] + rest.1);
    if |r| == 1 {
      NothingLeft(p, r);
      assert LoopRun(p, |p| + 1, t) == (p, []);
      assert [r[0]] + [] == [r[0]];
    } else {
      ShiftOne(p, r[1..]);
      SecondOn(r);
    }
  }

  lemma Regroup(p: seq<Chip>, x: Chip, rest: seq<Chip>)
    ensures (p + [x]) + rest == p + ([x] + rest)
  {
  }

  /** The empty list is a unit of concatenation on both sides. */
  lemma EmptyEnds(p: seq<Chip>)
    ensures [] + p == p && p + [] == p
  {
  }

  lemma NothingLeft(p: seq<Chip>, r: seq<Chip>)
    requires |r| == 1
    ensures p + r[1..] == p
  {
    assert r[1..] == [];
  }

  lemma SecondOn(r: seq<Chip>)
    requires |r| > 1
    ensures r[1..][0] == r[1] && r[1..][1..] == r[2..]
  {
  }

  /** In a list without repeated uids, the first chip of the unvisited part is not among the visited ones. */
  lemma DistinctSplit(p: seq<Chip>, r: seq<Chip>)
    requires Distinct(p + r) && |r| > 0
    ensures r[0] !in p
    ensures Distinct((p + [r[0]]) + r[1..])
    ensures |r| > 1 ==> Distinct((p + [r[1]]) + r[2..])
  {
    assert (p + r)[|p|] == r[0];
    forall k | 0 <= k < |p| ensures p[k] != r[0] {
      assert (p + r)[k] == p[k];
    }
    assert p + r == (p + [r[0]]) + r[1..];
    if |r| > 1 {
      RemoveAtKeepsDistinct(p + r, |p|);
      assert (p + r)[..|p|] + (p + r)[|p| + 1..] == (p + [r[1]]) + r[2..];
    }
  }

  /**
   * With the chips `p` already behind the loop's index and `r` still ahead,
   * the loop keeps `p` and finishes with the sweep of `r`.
   */
  lemma {:induction false} LoopRunFrom(p: seq<Chip>, r: seq<Chip>, t: seq<Slot>)
    requires Distinct(p + r)
    ensures LoopRun(p + r, |p|, t) == (p + Sweep(r, t), Dropped(r, t))
    decreases |r|
  {
    if r == [] {
      assert p + r == p;
    } else {
      SweepStep(r, t);
      DistinctSplit(p, r);
      var c := r[0];
      if SpanStart(t, c) == -1 {
        LoopRunRemoves(p, r, t);
        if |r| > 1 {
          var p2 := p + [r[1]];
          LoopRunFrom(p2, r[2..], t);
          Regroup(p, r[1], Sweep(r[2..], t));
          var rest := LoopRun(p2 + r[2..], |p| + 1, t);
          assert rest == (p2 + Sweep(r[2..], t), Dropped(r[2..], t));
          assert LoopRun(p + r, |p|, t) == (rest.0, [c] + rest.1);
          assert Sweep(r, t) == [r[1]] + Sweep(r[2..], t);
          assert Dropped(r, t) == [c] + Dropped(r[2..], t);
        } else {
          assert p + [] == p;
        }
      } else {
        var p2 := p + [c];
        LoopRunKeeps(p, r, t);
        LoopRunFrom(p2, r[1..], t);
        Regroup(p, c, Sweep(r[1..], t));
      }
    }
  }

  /**
   * On a list without repeated uids, the reconciliation loop leaves exactly
   * the sweep's survivors and removes exactly its casualties.
   */
  lemma LoopRunIsSweep(s: seq<Chip>, t: seq<Slot>)
    requires Distinct(s)
    ensures LoopRun(s, 0, t) == (Sweep(s, t), Dropped(s, t))
  {
    assert [] + s == s;
    LoopRunFrom([], s, t);
    assert [] + Sweep(s, t) == Sweep(s, t);
  }

  /** Taking one more dropped chip out of the map. */
  lemma ForgetOneMore(m: map<int, Chip>, dropped: seq<Chip>, c: Chip)
    ensures m - Uids(dropped) - {c} == m - Uids(dropped + [c])
  {
    UidsAppend(dropped, [c]);
    assert Uids([c]) == {c};
  }

  /** Sub-sequence: `a` is `b` with some elements left out, order kept. */
  ghost predicate Subsequence(a: seq<Chip>, b: seq<Chip>)
    decreases |b|
  {
    if a == [] then true
    else if b == [] then false
    else (a[0] == b[0] && Subsequence(a[1..], b[1..])) || Subsequence(a, b[1..])
  }

  /** Whatever the fates, survivors and casualties together hold every chip once. */
  lemma {:induction false} FatesPartition(s: seq<Chip>, f: seq<Fate>)
    requires |f| == |s|
    ensures multiset(Survivors(s, f)) + multiset(Casualties(s, f)) == multiset(s)
  {
    if |s| > 0 {
      FatesPartition(s[1..], f[1..]);
      var head := if f[0] == Removed then [] else [s[0]];
      var lost := if f[0] == Removed then [s[0]] else [];
      assert Survivors(s, f) == head + Survivors(s[1..], f[1..]);
      assert Casualties(s, f) == lost + Casualties(s[1..], f[1..]);
      assert multiset(head) + multiset(lost) == multiset{s[0]};
      HeadTail(s);
    }
  }

  /** The survivors keep their relative order. */
  lemma {:induction false} SurvivorsInOrder(s: seq<Chip>, f: seq<Fate>)
    requires |f| == |s|
    ensures Subsequence(Survivors(s, f), s)
  {
    if |s| > 0 {
      SurvivorsInOrder(s[1..], f[1..]);
      var r := Survivors(s[1..], f[1..]);
      if f[0] != Removed {
        assert Survivors(s, f) == [s[0]] + r;
        assert ([s[0]] + r)[1..] == r;
      } else {
        assert Survivors(s, f) == r;
      }
    }
  }

  /**
   * On a list without repeated uids, the survivors have no repeated uid either,
   * and their uids are exactly those not removed.
   */
  lemma {:induction false} FatesKeepSelectionConsistent(s: seq<Chip>, f: seq<Fate>)
    requires |f| == |s| && Distinct(s)
    ensures Distinct(Survivors(s, f))
    ensures Uids(Survivors(s, f)) == Uids(s) - Uids(Casualties(s, f))
    ensures Uids(Survivors(s, f)) <= Uids(s) && Uids(Casualties(s, f)) <= Uids(s)
  {
    if |s| > 0 {
      var c, rest := s[0], s[1..];
      assert s == [c] + rest;
      DistinctCons(c, rest);
      FatesKeepSelectionConsistent(rest, f[1..]);
      var sv, cs := Survivors(rest, f[1..]), Casualties(rest, f[1..]);
      UidsAppend([c], rest);
      assert Uids([c]) == {c};
      if f[0] == Removed {
        assert Survivors(s, f) == sv;
        assert Casualties(s, f) == [c] + cs;
        UidsAppend([c], cs);
      } else {
        assert Survivors(s, f) == [c] + sv;
        assert Casualties(s, f) == cs;
        UidsAppend([c], sv);
        DistinctCons(c, sv);
      }
    }
  }

  /**
   * The sweep keeps the selection table consistent: on a list without
   * repeated uids the remaining chips have none either, their uids are the
   * old ones minus those of the dropped chips, and the list does not grow.
   */
  lemma SweepKeepsSelection(s: seq<Chip>, t: seq<Slot>)
    requires Distinct(s)
    ensures Distinct(Sweep(s, t))
    ensures Uids(Sweep(s, t)) == Uids(s) - Uids(Dropped(s, t))
    ensures |Sweep(s, t)| <= |s|
  {
    var f := Fates(s, t);
    FatesKeepSelectionConsistent(s, f);
    FatesPartition(s, f);
    assert |multiset(Survivors(s, f))| <= |multiset(s)|;
  }

  /** A chip the sweep does not remove stays in the list. */
  lemma {:induction false} NotRemovedSurvives(s: seq<Chip>, f: seq<Fate>, i: nat)
    requires |f| == |s| && i < |s| && f[i] != Removed
    ensures s[i] in Survivors(s, f)
  {
    if i > 0 {
      NotRemovedSurvives(s[1..], f[1..], i - 1);
      assert s[1..][i - 1] == s[i];
    }
  }

  /**
   * The sweep as written: the chips it examines are removed exactly when their
   * span is gone from the text; a chip whose span is still in the text always
   * stays; a chip it passes over directly follows a removed one.
   */
  lemma SweepExaminedChips(s: seq<Chip>, t: seq<Slot>, i: nat)
    requires i < |s|
    ensures Fates(s, t)[i] != Skipped ==> (Fates(s, t)[i] == Removed <==> !InText(t, s[i]))
    ensures InText(t, s[i]) ==> s[i] in Sweep(s, t)
    ensures Fates(s, t)[i] == Skipped ==> 0 < i && s[i - 1] in Dropped(s, t)
  {
    var f := Fates(s, t);
    if InText(t, s[i]) {
      NotRemovedSurvives(s, f, i);
    }
    if f[i] == Skipped {
      RemovedIsDropped(s, f, i - 1);
    }
  }

  lemma {:induction false} RemovedIsDropped(s: seq<Chip>, f: seq<Fate>, i: nat)
    requires |f| == |s| && i < |s| && f[i] == Removed
    ensures s[i] in Casualties(s, f)
  {
    if i > 0 {
      RemovedIsDropped(s[1..], f[1..], i - 1);
      assert s[1..][i - 1] == s[i];
    }
  }

  /** The chips of `s` whose span is still in `t`, in order. */
  function StillInText(s: seq<Chip>, t: seq<Slot>): (r: seq<Chip>)
    ensures forall c :: c in r ==> c in s && InText(t, c)
    ensures forall c :: c in s && InText(t, c) ==> c in r
  {
    if |s| == 0 then []
    else (if InText(t, s[0]) then [s[0]] else []) + StillInText(s[1..], t)
  }

  /**
   * When no two neighbouring chips have both lost their span (for instance the
   * user erased a single chip), the sweep removes exactly the chips whose span
   * is gone.
   */
  lemma {:induction false} SweepExactWithoutAdjacentLosses(s: seq<Chip>, t: seq<Slot>)
    requires forall i :: 0 < i < |s| ==> InText(t, s[i - 1]) || InText(t, s[i])
    ensures Sweep(s, t) == StillInText(s, t)
    decreases |s|
  {
    if |s| > 0 {
      SweepStep(s, t);
      if !InText(t, s[0]) {
        if |s| > 1 {
          assert InText(t, s[1]);
          var rest := s[2..];
          forall i | 0 < i < |rest| ensures InText(t, rest[i - 1]) || InText(t, rest[i]) {
            assert rest[i - 1] == s[i + 1] && rest[i] == s[i + 2];
          }
          SweepExactWithoutAdjacentLosses(rest, t);
          assert s[1..][1..] == rest;
          assert StillInText(s[1..], t) == [s[1]] + StillInText(rest, t);
        }
      } else {
        var rest := s[1..];
        forall i | 0 < i < |rest| ensures InText(t, rest[i - 1]) || InText(t, rest[i]) {
          assert rest[i - 1] == s[i] && rest[i] == s[i + 1];
        }
        SweepExactWithoutAdjacentLosses(rest, t);
      }
    }
  }

  /** On a text that still holds every chip (such as a fresh rebuild) the sweep changes nothing. */
  lemma {:induction false} SweepOfIntactText(s: seq<Chip>, t: seq<Slot>)
    requires forall c :: c in s ==> InText(t, c)
    ensures Sweep(s, t) == s && Dropped(s, t) == []
    decreases |s|
  {
    if |s| > 0 {
      assert s[0] in s;
      SweepOfIntactText(s[1..], t);
      assert s == [s[0]] + s[1..];
    }
  }

  /**
   * The pass-over made concrete: with two neighbouring chips both erased, the
   * second one stays in the list although its span is gone.
   */
  lemma SweepPassesOverNeighbour()
    ensures Sweep([1, 2], []) == [2]
    ensures Dropped([1, 2], []) == [1]
    ensures !InText([], 2)
  {
    var s := [1, 2];
    SweepStep(s, []);
    assert s[1] == 2 && s[2..] == [];
  }
}
