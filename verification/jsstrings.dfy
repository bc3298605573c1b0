/**
 * The slice of JavaScript string behaviour the puzzle scripts rely on:
 * `String.prototype.split` with a string separator, the `\s` and
 * line-terminator character classes of ECMAScript regular expressions,
 * and decimal / binary digit strings as read by `Number` and `parseInt`.
 */
module JsStrings {
  import opened Wrappers

  // ---------------------------------------------------------------------
  // Character classes
  // ---------------------------------------------------------------------

  predicate IsDigit(c: char) { '0' <= c <= '9' }

  predicate AllDigits(s: string) { forall i :: 0 <= i < |s| ==> IsDigit(s[i]) }

  lemma DigitInPrefix(s: string, k: nat, i: nat)
    requires k <= |s| && AllDigits(s[..k]) && i < k
    ensures IsDigit(s[i])
  {
    assert s[..k][i] == s[i];
  }

  /** The LineTerminator code points: the characters `.` never matches. */
  predicate IsLineTerminator(c: char) {
    c == '\n' || c == '\r' || c == '\U{2028}' || c == '\U{2029}'
  }

  predicate NoLineTerminators(s: string) {
    forall i :: 0 <= i < |s| ==> !IsLineTerminator(s[i])
  }

  lemma NoLineTerminatorsSuffix(s: string, a: nat, b: nat)
    requires a <= b <= |s| && NoLineTerminators(s[a..])
    ensures NoLineTerminators(s[b..])
  {
    assert forall i :: 0 <= i < |s| - b ==> s[b..][i] == s[a..][i + b - a];
  }

  lemma NoLineTerminatorsInfix(s: string, a: nat, b: nat, c: nat)
    requires a <= b <= c <= |s| && NoLineTerminators(s[a..c])
    ensures NoLineTerminators(s[a..b])
  {
    assert forall i :: 0 <= i < b - a ==> s[a..b][i] == s[a..c][i];
  }

  /** The `\s` class: WhiteSpace (including every Zs code point) plus LineTerminator. */
  predicate IsSpace(c: char) {
    || c == '\t' || c == '\U{000B}' || c == '\U{000C}' || c == ' ' || c == '\U{00A0}'
    || c == '\U{1680}' || ('\U{2000}' <= c <= '\U{200A}') || c == '\U{202F}'
    || c == '\U{205F}' || c == '\U{3000}' || c == '\U{FEFF}'
    || IsLineTerminator(c)
  }

  // ---------------------------------------------------------------------
  // Greedy runs (what `\d+` and `\s+` consume)
  // ---------------------------------------------------------------------

  /** Length of the longest prefix of `s` made of decimal digits. */
  function DigitRun(s: string): (n: nat)
    ensures n <= |s|
    ensures AllDigits(s[..n])
    ensures n < |s| ==> !IsDigit(s[n])
  {
    if |s| == 0 || !IsDigit(s[0]) then 0
    else
      var n := 1 + DigitRun(s[1..]);
      assert s[..n] == [s[0]] + s[1..][..n - 1];
      n
  }

  /** Length of the longest prefix of `s` made of `\s` characters. */
  function SpaceRun(s: string): (n: nat)
    ensures n <= |s|
    ensures forall i :: 0 <= i < n ==> IsSpace(s[i])
    ensures n < |s| ==> !IsSpace(s[n])
  {
    if |s| == 0 || !IsSpace(s[0]) then 0 else 1 + SpaceRun(s[1..])
  }

  /** A digit prefix followed by a non-digit (or the end) is the greedy run. */
  lemma {:induction false} DigitRunUnique(s: string, d: nat)
    requires d <= |s| && (forall i :: 0 <= i < d ==> IsDigit(s[i]))
    requires d < |s| ==> !IsDigit(s[d])
    ensures DigitRun(s) == d
    decreases d
  {
    if d > 0 {
      assert IsDigit(s[0]);
      assert forall i :: 0 <= i < d - 1 ==> s[1..][i] == s[i + 1];
      DigitRunUnique(s[1..], d - 1);
    }
  }

  /** The same, for a digit prefix given as a slice. */
  lemma DigitsThenRun(s: string, d: nat)
    requires d < |s| && AllDigits(s[..d]) && !IsDigit(s[d])
    ensures DigitRun(s) == d
  {
    forall i | 0 <= i < d
      ensures IsDigit(s[i])
    {
      assert s[..d][i] == s[i];
    }
    DigitRunUnique(s, d);
  }

  /** A whitespace prefix followed by a non-space (or the end) is the greedy run. */
  lemma {:induction false} SpaceRunUnique(s: string, w: nat)
    requires w <= |s| && (forall i :: 0 <= i < w ==> IsSpace(s[i]))
    requires w < |s| ==> !IsSpace(s[w])
    ensures SpaceRun(s) == w
    decreases w
  {
    if w > 0 {
      assert IsSpace(s[0]);
      assert forall i :: 0 <= i < w - 1 ==> s[1..][i] == s[i + 1];
      SpaceRunUnique(s[1..], w - 1);
    }
  }

  // ---------------------------------------------------------------------
  // Numbers
  // ---------------------------------------------------------------------

  function DigitValue(c: char): (d: nat)
    requires IsDigit(c)
    ensures d < 10
  {
    c as int - '0' as int
  }

  function DigitChar(d: nat): (c: char)
    requires d < 10
    ensures IsDigit(c) && DigitValue(c) == d
  {
    ('0' as int + d) as char
  }

  /** The value of a decimal digit string, most significant digit first. */
  function DecimalValue(s: string): nat
    requires AllDigits(s)
  {
    if |s| == 0 then 0 else DecimalValue(s[..|s| - 1]) * 10 + DigitValue(s[|s| - 1])
  }

  /**
   * `Number(s)` restricted to what the puzzles feed it: a non-empty string of
   * decimal digits (leading zeros allowed) reads as its value, anything else is NaN.
   */
  function ParseDecimal(s: string): (r: Option<nat>)
    ensures r.Some? <==> |s| > 0 && AllDigits(s)
  {
    if |s| > 0 && AllDigits(s) then Some(DecimalValue(s)) else None
  }

  /** The shortest decimal spelling of `n`. */
  function ShowDecimal(n: nat): (s: string)
    ensures |s| > 0 && AllDigits(s)
    ensures |s| > 1 ==> s[0] != '0'
  {
    if n < 10 then [DigitChar(n)] else ShowDecimal(n / 10) + [DigitChar(n % 10)]
  }

  lemma {:induction false} DecimalRoundTrip(n: nat)
    ensures ParseDecimal(ShowDecimal(n)) == Some(n)
  {
    var s := ShowDecimal(n);
    if n < 10 {
      assert s[..|s| - 1] == [];
    } else {
      DecimalRoundTrip(n / 10);
      assert s[..|s| - 1] == ShowDecimal(n / 10);
      assert DecimalValue(s) == DecimalValue(ShowDecimal(n / 10)) * 10 + n % 10;
    }
  }

  /** `s` without its redundant leading zeros; a lone `0` stays. */
  function StripZeros(s: string): string
    decreases |s|
  {
    if |s| > 1 && s[0] == '0' then StripZeros(s[1..]) else s
  }

  /** A leading zero does not change a decimal value. */
  lemma {:induction false} LeadingZeroValue(t: string)
    requires AllDigits(t)
    ensures AllDigits(['0'] + t) && DecimalValue(['0'] + t) == DecimalValue(t)
    decreases |t|
  {
    var u := ['0'] + t;
    if |t| > 0 {
      assert u[..|u| - 1] == ['0'] + t[..|t| - 1];
      LeadingZeroValue(t[..|t| - 1]);
    } else {
      assert u[..|u| - 1] == [];
    }
  }

  lemma {:induction false} StripZerosValue(s: string)
    requires |s| > 0 && AllDigits(s)
    ensures var t := StripZeros(s);
      |t| > 0 && AllDigits(t) && (|t| == 1 || t[0] != '0') && DecimalValue(t) == DecimalValue(s)
    decreases |s|
  {
    if |s| > 1 && s[0] == '0' {
      assert s == ['0'] + s[1..];
      LeadingZeroValue(s[1..]);
      StripZerosValue(s[1..]);
    }
  }

  /** A digit string without a leading zero has a positive value. */
  lemma {:induction false} NonZeroLead(s: string)
    requires |s| > 0 && AllDigits(s) && s[0] != '0'
    ensures DecimalValue(s) >= 1
    decreases |s|
  {
    if |s| > 1 {
      NonZeroLead(s[..|s| - 1]);
    } else {
      assert s[..|s| - 1] == [];
    }
  }

  /** `ShowDecimal` spells every value the one way that has no leading zero. */
  lemma {:induction false} CanonicalSpelling(s: string)
    requires |s| > 0 && AllDigits(s) && (|s| == 1 || s[0] != '0')
    ensures ShowDecimal(DecimalValue(s)) == s
    decreases |s|
  {
    var n := DecimalValue(s);
    var p := s[..|s| - 1];
    var c := s[|s| - 1];
    if |s| == 1 {
      assert p == [];
      assert n == DigitValue(c) && n < 10;
      assert DigitChar(n) == c;
      assert s == [c];
    } else {
      NonZeroLead(p);
      assert n == DecimalValue(p) * 10 + DigitValue(c);
      assert n / 10 == DecimalValue(p) && n % 10 == DigitValue(c);
      CanonicalSpelling(p);
      assert DigitChar(n % 10) == c;
      assert s == p + [c];
    }
  }

  /**
   * The other half of `DecimalRoundTrip`: a digit string that parses is
   * spelled back as itself once its redundant leading zeros are removed.
   */
  lemma ParseDecimalSpelling(s: string)
    ensures ParseDecimal(s).Some? ==> ShowDecimal(ParseDecimal(s).value) == StripZeros(s)
  {
    if ParseDecimal(s).Some? {
      StripZerosValue(s);
      CanonicalSpelling(StripZeros(s));
    }
  }

  predicate IsBit(c: char) { c == '0' || c == '1' }

  predicate AllBits(s: string) { forall i :: 0 <= i < |s| ==> IsBit(s[i]) }

  /** The value of a binary digit string, most significant bit first. */
  function BinaryValue(s: string): nat
    requires AllBits(s)
  {
    if |s| == 0 then 0 else BinaryValue(s[..|s| - 1]) * 2 + (if s[|s| - 1] == '1' then 1 else 0)
  }

  lemma {:induction false} BinaryValueBound(s: string)
    requires AllBits(s)
    ensures BinaryValue(s) < Pow2(|s|)
  {
    if |s| > 0 {
      BinaryValueBound(s[..|s| - 1]);
    }
  }

  function Pow2(n: nat): (p: nat)
    ensures p >= 1
  {
    if n == 0 then 1 else 2 * Pow2(n - 1)
  }

  /** Length of the longest prefix of `s` made of binary digits. */
  function BitRun(s: string): (n: nat)
    ensures n <= |s|
    ensures AllBits(s[..n])
    ensures n < |s| ==> !IsBit(s[n])
  {
    if |s| == 0 || !IsBit(s[0]) then 0
    else
      var n := 1 + BitRun(s[1..]);
      assert s[..n] == [s[0]] + s[1..][..n - 1];
      n
  }

  /**
   * `parseInt(s, 2)`: the value of the longest binary prefix of `s`, or NaN
   * when `s` does not start with a binary digit.
   */
  function ParseBinaryPrefix(s: string): (r: Option<nat>)
    ensures r.Some? <==> |s| > 0 && IsBit(s[0])
    ensures AllBits(s) && |s| > 0 ==> r == Some(BinaryValue(s))
  {
    var n := BitRun(s);
    if n == 0 then None
    else
      assert AllBits(s) ==> s[..n] == s;
      Some(BinaryValue(s[..n]))
  }

  // ---------------------------------------------------------------------
  // Searching and splitting
  // ---------------------------------------------------------------------

  predicate OccursAt(s: string, sep: string, i: nat) {
    i + |sep| <= |s| && s[i..i + |sep|] == sep
  }

  predicate Contains(s: string, sep: string) {
    exists i: nat :: i <= |s| && OccursAt(s, sep, i)
  }

  /** `s.indexOf(sep, from)`: the first occurrence of `sep` at or after `from`. */
  function IndexFrom(s: string, sep: string, from: nat): (r: Option<nat>)
    ensures r.Some? ==> from <= r.value && OccursAt(s, sep, r.value)
    ensures forall j: nat :: from <= j && (r.None? || j < r.value) ==> !OccursAt(s, sep, j)
    decreases |s| - from
  {
    if from + |sep| > |s| then None
    else if s[from..from + |sep|] == sep then Some(from)
    else IndexFrom(s, sep, from + 1)
  }

  /** Joins `pieces` with `sep` between consecutive pieces; `[].join(sep)` is "". */
  function Join(pieces: seq<string>, sep: string): string {
    if |pieces| == 0 then ""
    else if |pieces| == 1 then pieces[0]
    else pieces[0] + sep + Join(pieces[1..], sep)
  }

  /**
   * A piece followed by `sep` meets its separator at the leftmost place: no
   * occurrence of `sep` starts inside the piece, even one that runs into the
   * separator that follows it.
   */
  predicate Leftmost(piece: string, sep: string)
    requires |sep| > 0
  {
    !Contains(piece + sep[..|sep| - 1], sep)
  }

  /** The text before the first occurrence of `sep` is a leftmost piece. */
  lemma FirstPiece(s: string, sep: string, i: nat)
    requires |sep| > 0 && IndexFrom(s, sep, 0) == Some(i)
    ensures !Contains(s[..i], sep) && Leftmost(s[..i], sep)
    ensures s == s[..i] + sep + s[i + |sep|..]
  {
    FirstPieceLeftmost(s, sep, i);
    FirstPieceFree(s, sep, i);
    assert s[i..i + |sep|] == sep;
  }

  lemma FirstPieceLeftmost(s: string, sep: string, i: nat)
    requires |sep| > 0 && IndexFrom(s, sep, 0) == Some(i)
    ensures Leftmost(s[..i], sep)
  {
    var t := s[..i] + sep[..|sep| - 1];
    assert t == s[..i + |sep| - 1];
    forall j: nat | j <= |t|
      ensures !OccursAt(t, sep, j)
    {
      if OccursAt(t, sep, j) {
        assert t[j..j + |sep|] == s[j..j + |sep|];
        assert OccursAt(s, sep, j) && j < i;
        assert false;
      }
    }
  }

  lemma FirstPieceFree(s: string, sep: string, i: nat)
    requires |sep| > 0 && IndexFrom(s, sep, 0) == Some(i)
    ensures !Contains(s[..i], sep)
  {
    forall j: nat | j <= i
      ensures !OccursAt(s[..i], sep, j)
    {
      if OccursAt(s[..i], sep, j) {
        assert s[j..j + |sep|] == s[..i][j..j + |sep|];
        assert OccursAt(s, sep, j) && j < i;
        assert false;
      }
    }
  }

  /** Putting a leftmost piece in front of the pieces of the rest. */
  lemma ConsPiece(head: string, tail: seq<string>, sep: string)
    requires |sep| > 0 && |tail| >= 1
    requires !Contains(head, sep) && Leftmost(head, sep)
    requires forall k :: 0 <= k < |tail| ==> !Contains(tail[k], sep)
    requires forall k :: 0 <= k < |tail| - 1 ==> Leftmost(tail[k], sep)
    ensures Join([head] + tail, sep) == head + sep + Join(tail, sep)
    ensures forall k :: 0 <= k < |tail| + 1 ==> !Contains(([head] + tail)[k], sep)
    ensures forall k :: 0 <= k < |tail| ==> Leftmost(([head] + tail)[k], sep)
  {
    assert ([head] + tail)[1..] == tail;
  }

  /**
   * `s.split(sep)` for a non-empty string separator: the pieces between the
   * successive leftmost non-overlapping occurrences of `sep`.
   */
  function Split(s: string, sep: string): (pieces: seq<string>)
    requires |sep| > 0
    ensures |pieces| >= 1
    ensures Join(pieces, sep) == s
    ensures forall k :: 0 <= k < |pieces| ==> !Contains(pieces[k], sep)
    ensures forall k :: 0 <= k < |pieces| - 1 ==> Leftmost(pieces[k], sep)
    decreases |s|
  {
    match IndexFrom(s, sep, 0)
    case None => [s]
    case Some(i) =>
      var tail := Split(s[i + |sep|..], sep);
      FirstPiece(s, sep, i);
      ConsPiece(s[..i], tail, sep);
      [s[..i]] + tail
  }

  /** `s.replace(/a/g, b)` for single characters `a` and `b`. */
  function ReplaceAll(s: string, a: char, b: char): (r: string)
    ensures |r| == |s|
    ensures forall i :: 0 <= i < |s| ==> r[i] == (if s[i] == a then b else s[i])
  {
    seq(|s|, i requires 0 <= i < |s| => if s[i] == a then b else s[i])
  }
  /**
   * What the global replace achieves: the character is gone afterwards
   * unless it is replaced by itself, and a text without it is unchanged.
   */
  lemma ReplaceAllEffect(s: string, a: char, b: char)
    ensures a != b ==> a !in ReplaceAll(s, a, b)
    ensures a !in s ==> ReplaceAll(s, a, b) == s
  {
  }


  /** A character absent from every piece and from the separator is absent from the join. */
  lemma {:induction false} JoinAvoids(pieces: seq<string>, sep: string, c: char)
    requires c !in sep
    requires forall k :: 0 <= k < |pieces| ==> c !in pieces[k]
    ensures c !in Join(pieces, sep)
    decreases |pieces|
  {
    if |pieces| > 1 {
      JoinAvoids(pieces[1..], sep, c);
    }
  }

  /** The first occurrence of a one-character separator is the first position holding it. */
  lemma FirstCharIndex(s: string, c: char, i: nat)
    requires i < |s| && s[i] == c && c !in s[..i]
    ensures IndexFrom(s, [c], 0) == Some(i)
  {
    assert OccursAt(s, [c], i) by {
      assert s[i..i + 1] == [s[i]];
    }
    forall j: nat | j < i
      ensures !OccursAt(s, [c], j)
    {
      assert s[..i][j] == s[j];
      assert j + 1 <= |s| ==> s[j..j + 1][0] == s[j];
    }
  }

  lemma NoCharIndex(s: string, c: char)
    requires c !in s
    ensures IndexFrom(s, [c], 0) == None
  {
    forall j: nat
      ensures !OccursAt(s, [c], j)
    {
      assert j + 1 <= |s| ==> s[j..j + 1][0] == s[j];
    }
  }

  /**
   * Splitting on a one-character separator undoes joining with it, provided
   * no piece contains that character: `pieces.join(c).split(c)` is `pieces`.
   */
  lemma {:induction false} SplitJoin(pieces: seq<string>, c: char)
    requires |pieces| >= 1
    requires forall k :: 0 <= k < |pieces| ==> c !in pieces[k]
    ensures Split(Join(pieces, [c]), [c]) == pieces
    decreases |pieces|
  {
    var s := Join(pieces, [c]);
    if |pieces| == 1 {
      NoCharIndex(s, c);
    } else {
      var head, rest := pieces[0], pieces[1..];
      assert s == head + [c] + Join(rest, [c]);
      assert IndexFrom(s, [c], 0) == Some(|head|) by {
        assert s[..|head|] == head;
        FirstCharIndex(s, c, |head|);
      }
      assert s[..|head|] == head && s[|head| + 1..] == Join(rest, [c]);
      assert Split(s, [c]) == [head] + Split(Join(rest, [c]), [c]);
      SplitJoin(rest, c);
      assert pieces == [head] + rest;
    }
  }
}
