/**
 * `displayFloat` of src/main.cpp: lays the text that `dtostrf` renders for
 * a value out on the 7-segment display, one `setDigit` command per
 * character other than '.', from the last character to the first.
 *
 * The display is an abstract sink: the model produces the trace of
 * commands the code issues, in the order it issues them.
 */
module DigitLayout {

  newtype byte = x: int | 0 <= x < 256

  /** The LedControl calls the core makes on the display. */
  datatype Command =
    | SetDigit(position: int, digit: byte, dp: bool)
    | ClearDisplay

  /** Longest text, decimal point included, that `displayFloat` shows. */
  const MaxTextLength := 5

  /** `(byte) (c - '0')`: the cast keeps the low eight bits of the difference. */
  function DigitValue(c: char): (d: byte)
    ensures '0' <= c <= '9' ==> d as int == c as int - '0' as int
  {
    ((c as int - '0' as int) % 256) as byte
  }

  /**
   * The positions in `s[from..]` of the characters other than '.', from the
   * last one to the first.
   */
  function DigitIndicesFrom(s: seq<char>, from: nat): (ids: seq<nat>)
    decreases |s| - from
    ensures forall k :: 0 <= k < |ids| ==> ids[k] < |s|
  {
    if from >= |s| then []
    else DigitIndicesFrom(s, from + 1) + (if s[from] == '.' then [] else [from])
  }

  /**
   * `DigitIndicesFrom` lists every position of `s[from..]` holding a
   * character other than '.', each once, in decreasing order.
   */
  lemma {:induction false} DigitIndicesSpec(s: seq<char>, from: nat)
    ensures var ids := DigitIndicesFrom(s, from);
            && (forall k :: 0 <= k < |ids| ==> from <= ids[k] < |s| && s[ids[k]] != '.')
            && (forall k, l :: 0 <= k < l < |ids| ==> ids[k] > ids[l])
            && (forall p :: from <= p < |s| && s[p] != '.' ==> p in ids)
    decreases |s| - from
  {
    if from < |s| {
      DigitIndicesSpec(s, from + 1);
      var ids, rest := DigitIndicesFrom(s, from), DigitIndicesFrom(s, from + 1);
      assert ids == rest + (if s[from] == '.' then [] else [from]);
      forall p | from <= p < |s| && s[p] != '.' ensures p in ids {
        if p == from {
          assert ids[|ids| - 1] == from;
        } else {
          assert p in rest;
        }
      }
    }
  }

  /**
   * The command for the character at `idx`: its digit value, with the
   * decimal point lit exactly when the character right of it is '.'.
   */
  function Entry(s: seq<char>, idx: nat, position: int): (c: Command)
    requires idx < |s|
  {
    SetDigit(position, DigitValue(s[idx]), idx + 1 < |s| && s[idx + 1] == '.')
  }

  /** The `k`-th character of `ids` goes to display position `offset + k`. */
  function Place(s: seq<char>, ids: seq<nat>, offset: int): (cmds: seq<Command>)
    requires forall k :: 0 <= k < |ids| ==> ids[k] < |s|
  {
    seq(|ids|, k requires 0 <= k < |ids| => Entry(s, ids[k], offset + k))
  }

  /** The layout of the whole text: the last digit at `offset`, each digit to its left one place higher. */
  function Layout(s: seq<char>, offset: int): (cmds: seq<Command>) {
    Place(s, DigitIndicesFrom(s, 0), offset)
  }

  /** What `displayFloat` emits: the layout, or nothing when the text is empty or too long. */
  function Emitted(s: seq<char>, offset: int): (cmds: seq<Command>) {
    if 0 < |s| <= MaxTextLength then Layout(s, offset) else []
  }

  /**
   * displayFloat, after `dtostrf` has rendered the value as `str`: walks
   * `str` backwards, remembers a '.' as a pending decimal point, and emits one
   * `setDigit` per other character at positions `offset`, `offset + 1`, ...
   */
  method DisplayFloat(str: seq<char>, offset: int) returns (cmds: seq<Command>)
    ensures cmds == Emitted(str, offset)
    ensures |str| == 0 || |str| > MaxTextLength ==> cmds == []
  {
    cmds := [];
    var valLen := |str|;
    if valLen > 0 && valLen <= MaxTextLength {
      var digit := offset;
      var setDecimal := false;
      var i := valLen - 1;
      while i >= 0
        invariant -1 <= i < valLen
        invariant digit == offset + |cmds|
        invariant setDecimal == (i + 1 < valLen && str[i + 1] == '.')
        invariant cmds == Place(str, DigitIndicesFrom(str, i + 1), offset)
      {
        if str[i] == '.' {
          setDecimal := true;
        } else {
          var valInt := str[i] as int - '0' as int;
          cmds := cmds + [SetDigit(digit, (valInt % 256) as byte, setDecimal)];
          digit := digit + 1;
          setDecimal := false;
        }
        i := i - 1;
      }
    }
  }

  /** Appending a character to the text puts its index, if it is a digit, first. */
  lemma {:induction false} DigitIndicesSnoc(s: seq<char>, c: char, from: nat)
    requires from <= |s|
    ensures DigitIndicesFrom(s + [c], from)
            == (if c == '.' then [] else [|s|]) + DigitIndicesFrom(s, from)
    decreases |s| - from
  {
    if from < |s| {
      DigitIndicesSnoc(s, c, from + 1);
      assert (s + [c])[from] == s[from];
    } else {
      assert DigitIndicesFrom(s + [c], from + 1) == [];
    }
  }

  lemma PlaceCons(s: seq<char>, i: nat, ids: seq<nat>, offset: int)
    requires i < |s| && forall k :: 0 <= k < |ids| ==> ids[k] < |s|
    ensures Place(s, [i] + ids, offset) == [Entry(s, i, offset)] + Place(s, ids, offset + 1)
  {
    var lhs := Place(s, [i] + ids, offset);
    var rhs := [Entry(s, i, offset)] + Place(s, ids, offset + 1);
    forall k | 0 <= k < |lhs| ensures lhs[k] == rhs[k] {
      if k > 0 {
        assert ([i] + ids)[k] == ids[k - 1];
      }
    }
  }

  /** The character at `idx`, and whether a '.' follows it, are the same in `s` and `t`. */
  predicate SameEntry(s: seq<char>, t: seq<char>, idx: nat)
    requires idx < |s| && idx < |t|
  {
    && s[idx] == t[idx]
    && ((idx + 1 < |s| && s[idx + 1] == '.') == (idx + 1 < |t| && t[idx + 1] == '.'))
  }

  lemma PlaceSame(s: seq<char>, t: seq<char>, ids: seq<nat>, offset: int)
    requires forall k :: 0 <= k < |ids| ==> ids[k] < |s| && ids[k] < |t| && SameEntry(s, t, ids[k])
    ensures Place(s, ids, offset) == Place(t, ids, offset)
  {
  }

  /** A digit at the end of the text goes to `offset`, without decimal point; the rest moves up one place. */
  lemma LayoutSnocDigit(s: seq<char>, c: char, offset: int)
    requires c != '.'
    ensures Layout(s + [c], offset) == [SetDigit(offset, DigitValue(c), false)] + Layout(s, offset + 1)
  {
    var t := s + [c];
    var ids := DigitIndicesFrom(s, 0);
    DigitIndicesSnoc(s, c, 0);
    PlaceCons(t, |s|, ids, offset);
    forall k | 0 <= k < |ids| ensures SameEntry(s, t, ids[k]) {
      var idx := ids[k];
      assert t[idx] == s[idx];
      if idx + 1 < |s| {
        assert t[idx + 1] == s[idx + 1];
      } else {
        assert t[idx + 1] == c;
      }
    }
    PlaceSame(s, t, ids, offset + 1);
  }

  /** A trailing '.' lights the decimal point of the digit left of it, which goes to `offset`. */
  lemma LayoutSnocDot(s: seq<char>, offset: int)
    requires s != [] && s[|s| - 1] != '.'
    ensures Layout(s + ['.'], offset)
            == [SetDigit(offset, DigitValue(s[|s| - 1]), true)] + Layout(s[..|s| - 1], offset + 1)
  {
    var init := s[..|s| - 1];
    var t := s + ['.'];
    assert s == init + [s[|s| - 1]];
    var ids := DigitIndicesFrom(init, 0);
    DigitIndicesSnoc(s, '.', 0);
    DigitIndicesSnoc(init, s[|s| - 1], 0);
    PlaceCons(t, |init|, ids, offset);
    forall k | 0 <= k < |ids| ensures SameEntry(init, t, ids[k]) {
      var idx := ids[k];
      assert t[idx] == init[idx];
      if idx + 1 < |init| {
        assert t[idx + 1] == init[idx + 1];
      } else {
        assert t[idx + 1] == s[|s| - 1];
      }
    }
    PlaceSame(init, t, ids, offset + 1);
  }

  /** The display character for a digit value, as it reads on the display. */
  function DigitChar(d: byte): (c: char) {
    ('0' as int + d as int) as char
  }

  /**
   * What the display reads, from the highest position to the lowest, after
   * the commands of one layout: each digit followed by '.' when its decimal
   * point is lit.
   */
  function Render(cmds: seq<Command>): (text: seq<char>) {
    if cmds == [] then []
    else
      match cmds[0]
      case SetDigit(_, d, dp) => Render(cmds[1..]) + [DigitChar(d)] + (if dp then ['.'] else [])
      case ClearDisplay => Render(cmds[1..])
  }

  /** Text made only of the characters '0'..'9' and '.'. */
  predicate DigitsAndPoints(s: seq<char>) {
    forall k :: 0 <= k < |s| ==> '0' <= s[k] <= '9' || s[k] == '.'
  }

  /** Text as `dtostrf` renders a non-negative value: digits and points, no leading point, no two points in a row. */
  predicate Numeral(s: seq<char>) {
    && DigitsAndPoints(s)
    && (|s| > 0 ==> s[0] != '.')
    && (forall k :: 0 < k < |s| && s[k] == '.' ==> s[k - 1] != '.')
  }

  lemma RenderPrepend(position: int, d: byte, dp: bool, rest: seq<Command>)
    ensures Render([SetDigit(position, d, dp)] + rest)
            == Render(rest) + [DigitChar(d)] + (if dp then ['.'] else [])
  {
    assert ([SetDigit(position, d, dp)] + rest)[1..] == rest;
  }

  /** A prefix of a numeral is a numeral. */
  lemma NumeralPrefix(s: seq<char>, m: nat)
    requires Numeral(s) && m <= |s|
    ensures Numeral(s[..m])
  {
    assert forall k :: 0 <= k < m ==> s[..m][k] == s[k];
  }

  /** Round-trip step for a final digit. */
  lemma RenderSnocDigit(init: seq<char>, c: char, offset: int)
    requires '0' <= c <= '9'
    requires Render(Layout(init, offset + 1)) == init
    ensures Render(Layout(init + [c], offset)) == init + [c]
  {
    LayoutSnocDigit(init, c, offset);
    RenderPrepend(offset, DigitValue(c), false, Layout(init, offset + 1));
    assert DigitChar(DigitValue(c)) == c;
  }

  /** Round-trip step for a final '.' after a digit. */
  lemma RenderSnocDot(rest: seq<char>, d: char, offset: int)
    requires '0' <= d <= '9'
    requires Render(Layout(rest, offset + 1)) == rest
    ensures Render(Layout(rest + [d] + ['.'], offset)) == rest + [d] + ['.']
  {
    var init := rest + [d];
    assert init[|init| - 1] == d && init[..|init| - 1] == rest;
    LayoutSnocDot(init, offset);
    RenderPrepend(offset, DigitValue(d), true, Layout(rest, offset + 1));
    assert DigitChar(DigitValue(d)) == d;
  }

  /** Reading the display from its highest position down gives the text back. */
  lemma {:induction false} LayoutRoundTrip(s: seq<char>, offset: int)
    requires Numeral(s)
    ensures Render(Layout(s, offset)) == s
    decreases |s|
  {
    if s == [] {
      assert Layout(s, offset) == [];
    } else {
      var n := |s|;
      var c := s[n - 1];
      if c != '.' {
        var init := s[..n - 1];
        assert s == init + [c];
        NumeralPrefix(s, n - 1);
        LayoutRoundTrip(init, offset + 1);
        RenderSnocDigit(init, c, offset);
      } else {
        var d := s[n - 2];
        var rest := s[..n - 2];
        assert s == rest + [d] + ['.'];
        NumeralPrefix(s, n - 2);
        LayoutRoundTrip(rest, offset + 1);
        RenderSnocDot(rest, d, offset);
      }
    }
  }

  /**
   * The layout emits one command per character other than '.', at
   * positions `offset`, `offset + 1`, ...; for text over '0'..'9' and '.'
   * every digit value is below ten.
   */
  lemma LayoutShape(s: seq<char>, offset: int)
    ensures |Layout(s, offset)| == |s| - multiset(s)['.']
    ensures forall k :: 0 <= k < |Layout(s, offset)| ==>
              Layout(s, offset)[k].SetDigit? && Layout(s, offset)[k].position == offset + k
    ensures DigitsAndPoints(s) ==> forall k :: 0 <= k < |Layout(s, offset)| ==> Layout(s, offset)[k].digit < 10
  {
    DigitIndicesCount(s, 0);
    DigitIndicesSpec(s, 0);
    assert s[0..] == s;
  }

  lemma {:induction false} DigitIndicesCount(s: seq<char>, from: nat)
    requires from <= |s|
    ensures |DigitIndicesFrom(s, from)| == |s| - from - multiset(s[from..])['.']
    decreases |s| - from
  {
    if from < |s| {
      DigitIndicesCount(s, from + 1);
      assert s[from..] == [s[from]] + s[from + 1..];
      assert multiset(s[from..])['.'] == multiset(s[from + 1..])['.'] + (if s[from] == '.' then 1 else 0);
    } else {
      assert s[from..] == [];
    }
  }

  /** With at most one '.' in the text, at most one digit has its decimal point lit. */
  lemma AtMostOneDecimalPoint(s: seq<char>, offset: int)
    requires forall p, q :: 0 <= p < q < |s| ==> !(s[p] == '.' && s[q] == '.')
    ensures forall k, l :: 0 <= k < l < |Layout(s, offset)| ==>
              !(Layout(s, offset)[k].dp && Layout(s, offset)[l].dp)
  {
    DigitIndicesSpec(s, 0);
  }

  /** `12.45` at offset 0 reads "1 2.4 5" from position 3 down to 0, as the doc comment of displayFloat shows. */
  lemma LayoutExample()
    ensures Emitted("12.45", 0)
            == [SetDigit(0, 5, false), SetDigit(1, 4, false), SetDigit(2, 2, true), SetDigit(3, 1, false)]
  {
  }
}
