/**
 * The chip spans of the group-creation picker and the editable text field that
 * displays them (GroupCreateActivity.XImageSpan and userSelectEditText).
 *
 * The text field is a sequence of slots. A slot covered by a chip's span is a
 * `Placeholder` and reads as '<'; any other slot is a character the user typed.
 * The rebuild writes "<<" per chip, so a chip covers two consecutive slots.
 */
module Chips {

  /** The member cap checked by the item-click handler and shown in the subtitle. */
  const MaxMembers: nat := 200

  /**
   * An inline chip span, known by the id of the user it stands for (its `uid`).
   * The screen never holds two spans for one user, so the id stands in for
   * the span object's identity.
   */
  type Chip = int

  /** One character position of the text field. */
  datatype Slot = Placeholder(chip: Chip) | Typed(ch: char)

  /** The character a slot shows; a chip's placeholder text is '<'. */
  function CharOf(s: Slot): char
  {
    match s
    case Placeholder(_) => '<'
    case Typed(c) => c
  }

  /** `toString()` of the text field: one character per slot, '<' for a chip's slot and the typed character otherwise. */
  function Render(t: seq<Slot>): (r: string)
    ensures |r| == |t|
    ensures forall i :: 0 <= i < |t| && t[i].Placeholder? ==> r[i] == '<'
    ensures forall i :: 0 <= i < |t| && t[i].Typed? ==> r[i] == t[i].ch
  {
    seq(|t|, i requires 0 <= i < |t| => CharOf(t[i]))
  }

  /** `String.replace("<", "")`: the search query left once every '<' is removed. */
  function StripPlaceholders(s: string): (q: string)
    ensures '<' !in q
    ensures |q| <= |s|
    ensures |q| == 0 <==> forall i :: 0 <= i < |s| ==> s[i] == '<'
    ensures forall c :: c in s && c != '<' ==> c in q
  {
    if |s| == 0 then []
    else if s[0] == '<' then StripPlaceholders(s[1..])
    else [s[0]] + StripPlaceholders(s[1..])
  }

  /**
   * `replace` works character by character and keeps the order: stripping a
   * concatenation strips each part.
   */
  lemma {:induction false} StripAppend(a: string, b: string)
    ensures StripPlaceholders(a + b) == StripPlaceholders(a) + StripPlaceholders(b)
    decreases |a|
  {
    if |a| == 0 {
      assert a + b == b;
    } else {
      assert (a + b)[0] == a[0] && (a + b)[1..] == a[1..] + b;
      StripAppend(a[1..], b);
    }
  }

  /** A single character is dropped if it is '<' and kept otherwise. */
  lemma StripOne(c: char)
    ensures StripPlaceholders([c]) == if c == '<' then [] else [c]
  {
    assert [c][1..] == [];
  }

  /** `toString()` of a concatenation is the concatenation of the two strings. */
  lemma RenderAppend(x: seq<Slot>, y: seq<Slot>)
    ensures Render(x + y) == Render(x) + Render(y)
  {
  }

  /** Whether the chip's span is still attached to some slot of the text. */
  predicate InText(t: seq<Slot>, c: Chip)
  {
    Placeholder(c) in t
  }

  /** `Spannable.getSpanStart`: the first slot the span covers, or -1 if the span is gone. */
  function SpanStart(t: seq<Slot>, c: Chip): (r: int)
    ensures -1 <= r < |t|
    ensures r == -1 <==> !InText(t, c)
    ensures r >= 0 ==> t[r] == Placeholder(c) && Placeholder(c) !in t[..r]
  {
    if |t| == 0 then -1
    else if t[0] == Placeholder(c) then 0
    else
      var r := SpanStart(t[1..], c);
      assert t == [t[0]] + t[1..];
      if r == -1 then -1
      else
        assert t[..r + 1] == [t[0]] + t[1..][..r];
        r + 1
  }

  /** `Spannable.getSpanEnd`: one past the last slot the span covers, or -1 if the span is gone. */
  function SpanEnd(t: seq<Slot>, c: Chip): (r: int)
    ensures r == -1 <==> !InText(t, c)
    ensures r != -1 ==> 1 <= r <= |t| && t[r - 1] == Placeholder(c) && Placeholder(c) !in t[r..]
  {
    if |t| == 0 then -1
    else if t[|t| - 1] == Placeholder(c) then |t|
    else
      var n := |t| - 1;
      assert t == t[..n] + [t[n]];
      var r := SpanEnd(t[..n], c);
      if r != -1 then
        assert t[r..] == t[..n][r..] + [t[n]];
        r
      else r
  }

  /** `SpannableStringBuilder.delete(start, end)`. */
  function DeleteRange(t: seq<Slot>, start: nat, end: nat): (r: seq<Slot>)
    requires start <= end <= |t|
    ensures |r| == |t| - (end - start)
    ensures r[..start] == t[..start] && r[start..] == t[end..]
  {
    t[..start] + t[end..]
  }

  /** A span's start is the first slot it covers. */
  lemma SpanStartAt(t: seq<Slot>, c: Chip, k: nat)
    requires k < |t| && t[k] == Placeholder(c) && Placeholder(c) !in t[..k]
    ensures SpanStart(t, c) == k
  {
    assert InText(t, c) by { assert t[k] in t; }
  }

  /** A span's end is one past the last slot it covers. */
  lemma SpanEndAt(t: seq<Slot>, c: Chip, k: nat)
    requires 1 <= k <= |t| && t[k - 1] == Placeholder(c) && Placeholder(c) !in t[k..]
    ensures SpanEnd(t, c) == k
  {
    assert InText(t, c) by { assert t[k - 1] in t; }
  }

  /** A span still in the text covers a non-empty range of it. */
  lemma SpanBounds(t: seq<Slot>, c: Chip)
    requires InText(t, c)
    ensures 0 <= SpanStart(t, c) < SpanEnd(t, c) <= |t|
  {
  }

  /**
   * The deselect path's `text.delete(getSpanStart(span), getSpanEnd(span))`
   * for a span still in the text: the chip's slots disappear with everything
   * between them, and the rest of the text is kept.
   */
  function DeleteSpan(t: seq<Slot>, c: Chip): (r: seq<Slot>)
    requires InText(t, c)
    ensures !InText(r, c)
    ensures |r| < |t|
    ensures r == t[..SpanStart(t, c)] + t[SpanEnd(t, c)..]
  {
    SpanBounds(t, c);
    DeleteRange(t, SpanStart(t, c), SpanEnd(t, c))
  }

  /**
   * The text the screen writes after every selection change: "<<" per chip, in
   * list order, each pair covered by that chip's span.
   */
  function ChipText(s: seq<Chip>): (t: seq<Slot>)
    ensures |t| == 2 * |s|
  {
    if s == [] then []
    else
      var n := |s| - 1;
      ChipText(s[..n]) + [Placeholder(s[n]), Placeholder(s[n])]
  }

  /** Rebuilding for a concatenation of chip lists concatenates the two texts. */
  lemma {:induction false} ChipTextAppend(a: seq<Chip>, b: seq<Chip>)
    ensures ChipText(a + b) == ChipText(a) + ChipText(b)
    decreases |b|
  {
    if b == [] {
      assert a + b == a;
    } else {
      var n := |b| - 1;
      var ab := a + b;
      assert ab[..|ab| - 1] == a + b[..n];
      assert ab[|ab| - 1] == b[n];
      var pair := [Placeholder(b[n]), Placeholder(b[n])];
      assert ChipText(ab) == ChipText(a + b[..n]) + pair;
      ChipTextAppend(a, b[..n]);
      assert ChipText(b) == ChipText(b[..n]) + pair;
      calc {
        ChipText(ab);
        ChipText(a) + ChipText(b[..n]) + pair;
        ChipText(a) + (ChipText(b[..n]) + pair);
      }
    }
  }

  /** Every slot of the rebuilt text is a placeholder of one of the listed chips. */
  lemma {:induction false} ChipTextSlots(s: seq<Chip>)
    ensures forall sl :: sl in ChipText(s) ==> sl.Placeholder? && sl.chip in s
  {
    if s != [] {
      var n := |s| - 1;
      ChipTextSlots(s[..n]);
      forall sl | sl in ChipText(s) ensures sl.Placeholder? && sl.chip in s {
        if sl in ChipText(s[..n]) {
          var k :| 0 <= k < n && s[..n][k] == sl.chip;
          assert s[k] == sl.chip;
        }
      }
    }
  }

  /** A single chip is written as two placeholder slots. */
  lemma ChipTextSingle(c: Chip)
    ensures ChipText([c]) == [Placeholder(c), Placeholder(c)]
  {
    assert [c][..0] == [];
  }

  /** The rendered chip text is "<<" once per chip and yields an empty search query. */
  lemma {:induction false} ChipTextRendersAsPlaceholders(s: seq<Chip>)
    ensures |Render(ChipText(s))| == 2 * |s|
    ensures forall k :: 0 <= k < 2 * |s| ==> Render(ChipText(s))[k] == '<'
    ensures StripPlaceholders(Render(ChipText(s))) == []
  {
    var t := ChipText(s);
    var r := Render(t);
    ChipTextSlots(s);
    forall k | 0 <= k < |t|
      ensures r[k] == '<'
    {
      assert t[k] in t;
    }
  }

  /** The rebuilt text of a list split around one chip. */
  lemma ChipTextSplit(pre: seq<Chip>, c: Chip, post: seq<Chip>)
    ensures ChipText(pre + [c] + post) == ChipText(pre) + [Placeholder(c), Placeholder(c)] + ChipText(post)
  {
    ChipTextAppend(pre + [c], post);
    ChipTextAppend(pre, [c]);
    ChipTextSingle(c);
  }

  /** A chip whose span sits between two runs free of it starts and ends there. */
  lemma SpanOfPair(x: seq<Slot>, c: Chip, y: seq<Slot>)
    requires Placeholder(c) !in x && Placeholder(c) !in y
    ensures SpanStart(x + [Placeholder(c), Placeholder(c)] + y, c) == |x|
    ensures SpanEnd(x + [Placeholder(c), Placeholder(c)] + y, c) == |x| + 2
  {
    var t := x + [Placeholder(c), Placeholder(c)] + y;
    PairParts(x, c, y);
    SpanStartAt(t, c, |x|);
    SpanEndAt(t, c, |x| + 2);
  }

  lemma PairParts(x: seq<Slot>, c: Chip, y: seq<Slot>)
    ensures var t := x + [Placeholder(c), Placeholder(c)] + y;
      t[..|x|] == x && t[|x| + 2..] == y && t[|x|] == Placeholder(c) && t[|x| + 1] == Placeholder(c)
  {
  }

  /** A list is its prefix, the chip at `i` and its suffix. */
  lemma SplitAround(s: seq<Chip>, i: nat)
    requires i < |s|
    ensures s == s[..i] + [s[i]] + s[i + 1..]
  {
  }

  /** A chip missing from a list has no slot in the list's rebuilt text. */
  lemma AbsentChipHasNoSlot(s: seq<Chip>, c: Chip)
    requires c !in s
    ensures Placeholder(c) !in ChipText(s)
  {
    ChipTextSlots(s);
  }

  /** In a list with pairwise different chips, the chip at `i` occurs neither before nor after `i`. */
  lemma OnlyAt(s: seq<Chip>, i: nat)
    requires forall j, k :: 0 <= j < k < |s| ==> s[j] != s[k]
    requires i < |s|
    ensures s[i] !in s[..i] && s[i] !in s[i + 1..]
  {
    forall j | 0 <= j < i ensures s[..i][j] != s[i] { assert s[..i][j] == s[j]; }
    var post := s[i + 1..];
    forall k | 0 <= k < |post| ensures post[k] != s[i] { assert post[k] == s[i + 1 + k]; }
  }

  /**
   * In a rebuilt text whose chips are pairwise different, chip i occupies
   * exactly the slots [2i, 2i+2).
   */
  lemma ChipTextSpans(s: seq<Chip>, i: nat)
    requires forall j, k :: 0 <= j < k < |s| ==> s[j] != s[k]
    requires i < |s|
    ensures SpanStart(ChipText(s), s[i]) == 2 * i
    ensures SpanEnd(ChipText(s), s[i]) == 2 * i + 2
  {
    var c, pre, post := s[i], s[..i], s[i + 1..];
    SplitAround(s, i);
    OnlyAt(s, i);
    ChipTextSplit(pre, c, post);
    AbsentChipHasNoSlot(pre, c);
    AbsentChipHasNoSlot(post, c);
    SpanOfPair(ChipText(pre), c, ChipText(post));
  }
}
