/**
 * The few Python `str` operations the client and its scripts rely on, over
 * `string` (a sequence of characters): substring search, `split`, `join`,
 * `replace`, `strip`, `lower`, `startswith`, and the decimal conversions of
 * `int()` and `str()`.
 */
module Strings {
  import opened Outcomes

  /** `sub` occurs in `s` starting at index `j`. */
  predicate OccursAt(s: string, sub: string, j: int) {
    0 <= j && j + |sub| <= |s| && s[j..j + |sub|] == sub
  }

  /** Where `sub` occurs, the rest of `s` is `sub` and what follows it. */
  lemma OccursSplit(s: string, sub: string, j: int)
    requires OccursAt(s, sub, j)
    ensures s[j..] == sub + s[j + |sub|..]
  {
    assert s[j..] == s[j..j + |sub|] + s[j + |sub|..];
  }

  /** The index of the first occurrence of `sub` in `s`, as `str.find` (None for -1). */
  function IndexOf(s: string, sub: string): (r: Option<nat>)
    ensures r.Some? ==> OccursAt(s, sub, r.value)
    ensures r.Some? ==> forall j :: 0 <= j < r.value ==> !OccursAt(s, sub, j)
    ensures r.None? ==> forall j :: !OccursAt(s, sub, j)
    decreases |s|
  {
    if |s| < |sub| then None
    else if sub <= s then Some(0)
    else
      assert !OccursAt(s, sub, 0);
      assert forall j :: 1 <= j ==> (OccursAt(s, sub, j) <==> OccursAt(s[1..], sub, j - 1)) by {
        forall j | 1 <= j ensures OccursAt(s, sub, j) <==> OccursAt(s[1..], sub, j - 1) {
          if j + |sub| <= |s| {
            SliceOfTail(s, j, |sub|);
          }
        }
      }
      match IndexOf(s[1..], sub)
      case None => None
      case Some(i) => Some(i + 1)
  }

  /** A slice of `s` is the slice one position earlier of its tail. */
  lemma SliceOfTail(s: string, j: int, n: nat)
    requires 1 <= j && j + n <= |s|
    ensures s[j..j + n] == s[1..][j - 1..j - 1 + n]
  {
    var t := s[1..];
    assert forall k :: j - 1 <= k < j - 1 + n ==> t[k] == s[k + 1];
  }

  /** Python's `sub in s`. */
  predicate Contains(s: string, sub: string) {
    IndexOf(s, sub).Some?
  }

  lemma ContainsIff(s: string, sub: string)
    ensures Contains(s, sub) <==> exists j :: OccursAt(s, sub, j)
  {
  }

  /** A one-character `sub` is contained exactly when the character is an element. */
  lemma ContainsChar(s: string, c: char)
    ensures Contains(s, [c]) <==> c in s
  {
    if c in s {
      var j :| 0 <= j < |s| && s[j] == c;
      assert OccursAt(s, [c], j);
    }
    if Contains(s, [c]) {
      var j := IndexOf(s, [c]).value;
      assert s[j..j + 1] == [c];
      assert s[j] == c;
    }
  }

  /** Python's `s.startswith(prefix)`. */
  predicate StartsWith(s: string, prefix: string) {
    prefix <= s
  }

  /** Python's `s.split(sep)` for a non-empty separator: the pieces between the
      non-overlapping occurrences of `sep`, found left to right. */
  function Split(s: string, sep: string): (r: seq<string>)
    requires sep != []
    ensures |r| >= 1
    decreases |s|
  {
    match IndexOf(s, sep)
    case None => [s]
    case Some(i) => [s[..i]] + Split(s[i + |sep|..], sep)
  }

  /** Python's `s.split(sep, maxsplit=1)`: one piece when `sep` does not occur, else two. */
  function SplitOnce(s: string, sep: string): (r: seq<string>)
    requires sep != []
    ensures |r| == 1 <==> !Contains(s, sep)
    ensures |r| == 1 ==> r[0] == s
    ensures |r| == 2 ==> r[0] + sep + r[1] == s && !Contains(r[0], sep)
    ensures 1 <= |r| <= 2
  {
    match IndexOf(s, sep)
    case None => [s]
    case Some(i) =>
      assert s == s[..i] + sep + s[i + |sep|..] by {
        assert s[i..i + |sep|] == sep;
      }
      NoEarlierOccurrence(s, sep, i);
      [s[..i], s[i + |sep|..]]
  }

  /** Nothing before the first occurrence contains the separator. */
  lemma NoEarlierOccurrence(s: string, sep: string, i: nat)
    requires sep != [] && i <= |s|
    requires forall j :: 0 <= j < i ==> !OccursAt(s, sep, j)
    ensures !Contains(s[..i], sep)
  {
    forall j | OccursAt(s[..i], sep, j) ensures j < i && OccursAt(s, sep, j) {
      assert s[..i][j..j + |sep|] == s[j..j + |sep|];
    }
  }

  /** Python's `sep.join(pieces)`. */
  function Join(pieces: seq<string>, sep: string): string
    decreases |pieces|
  {
    if |pieces| == 0 then ""
    else if |pieces| == 1 then pieces[0]
    else pieces[0] + sep + Join(pieces[1..], sep)
  }

  /** Joining two non-empty lists is joining each and putting the separator between. */
  lemma {:induction false} JoinAppend(a: seq<string>, b: seq<string>, sep: string)
    requires |a| >= 1 && |b| >= 1
    ensures Join(a + b, sep) == Join(a, sep) + sep + Join(b, sep)
    decreases |a|
  {
    if |a| > 1 {
      JoinAppend(a[1..], b, sep);
      assert (a + b)[1..] == a[1..] + b;
    } else {
      assert (a + b)[1..] == b;
    }
  }

  /** Joining the pieces of a split with the same separator gives the string back. */
  lemma {:induction false} JoinSplit(s: string, sep: string)
    requires sep != []
    ensures Join(Split(s, sep), sep) == s
    decreases |s|
  {
    var found := IndexOf(s, sep);
    if found.Some? {
      var i := found.value;
      var rest := s[i + |sep|..];
      var pieces := Split(rest, sep);
      JoinSplit(rest, sep);
      assert Split(s, sep) == [s[..i]] + pieces;
      assert ([s[..i]] + pieces)[1..] == pieces;
      assert Join([s[..i]] + pieces, sep) == s[..i] + sep + Join(pieces, sep);
      assert s[i..i + |sep|] == sep;
      assert s == s[..i] + s[i..i + |sep|] + rest;
    }
  }

  /** No piece of a split contains the separator. */
  lemma {:induction false} SplitPiecesFree(s: string, sep: string)
    requires sep != []
    ensures forall p <- Split(s, sep) :: !Contains(p, sep)
    decreases |s|
  {
    match IndexOf(s, sep)
    case None =>
    case Some(i) =>
      SplitPiecesFree(s[i + |sep|..], sep);
      NoEarlierOccurrence(s, sep, i);
  }

  /** A text occurs in any text that has it as a slice. */
  lemma OccursInSlice(s: string, k: nat, p: string, j: int)
    requires k <= |s| && OccursAt(s[k..], p, j)
    ensures Contains(s, p)
  {
    assert s[k..][j..j + |p|] == s[j + k..j + k + |p|];
    assert OccursAt(s, p, j + k);
  }

  /** Every piece of a split occurs in the split text. */
  lemma {:induction false} SplitPiecesOccur(s: string, sep: string)
    requires sep != []
    ensures forall p <- Split(s, sep) :: Contains(s, p)
    decreases |s|
  {
    match IndexOf(s, sep)
    case None =>
      assert OccursAt(s, s, 0);
    case Some(i) =>
      var k := i + |sep|;
      var t := s[k..];
      SplitPiecesOccur(t, sep);
      assert OccursAt(s, s[..i], 0);
      forall p <- Split(t, sep) ensures Contains(s, p) {
        var j := IndexOf(t, p).value;
        OccursInSlice(s, k, p, j);
      }
  }

  /** The first occurrence of a one-character separator in `p + [c] + t` is just
      after `p` when `p` does not contain it. */
  lemma FirstCharOccurrence(p: string, c: char, t: string)
    requires c !in p
    ensures IndexOf(p + [c] + t, [c]) == Some(|p|)
  {
    var s := p + [c] + t;
    assert OccursAt(s, [c], |p|);
    forall j | 0 <= j < |p| ensures !OccursAt(s, [c], j) {
      assert s[j..j + 1] == [p[j]];
    }
  }

  /** Splitting once at a character that the first part lacks gives back the two parts. */
  lemma SplitOnceChar(a: string, c: char, b: string)
    requires c !in a
    ensures SplitOnce(a + [c] + b, [c]) == [a, b]
  {
    var s := a + [c] + b;
    FirstCharOccurrence(a, c, b);
    assert s[..|a|] == a;
    assert s[|a| + 1..] == b;
  }

  /** Splitting on a one-character separator undoes joining with it, when no
      piece contains that character. */
  lemma {:induction false} SplitJoin(pieces: seq<string>, c: char)
    requires |pieces| >= 1
    requires forall p <- pieces :: c !in p
    ensures Split(Join(pieces, [c]), [c]) == pieces
    decreases |pieces|
  {
    if |pieces| == 1 {
      assert c !in pieces[0];
      ContainsChar(pieces[0], c);
    } else {
      var rest := Join(pieces[1..], [c]);
      FirstCharOccurrence(pieces[0], c, rest);
      var s := pieces[0] + [c] + rest;
      assert s[|pieces[0]| + 1..] == rest;
      assert s[..|pieces[0]|] == pieces[0];
      SplitJoin(pieces[1..], c);
    }
  }

  /** The first occurrence determines `IndexOf`. */
  lemma IndexOfIs(s: string, sub: string, i: nat)
    requires OccursAt(s, sub, i)
    requires forall j :: 0 <= j < i ==> !OccursAt(s, sub, j)
    ensures IndexOf(s, sub) == Some(i)
  {
    var found := IndexOf(s, sub);
    assert found.Some?;
    assert !(found.value < i);
  }

  /** A piece that lacks the first character of the separator is split off whole. */
  lemma SplitAtFirst(s: string, p: string, sep: string, t: string)
    requires s == p + sep + t
    requires sep != [] && sep[0] !in p
    ensures Split(s, sep) == [p] + Split(t, sep)
  {
    forall j | 0 <= j < |p| ensures !OccursAt(s, sep, j) {
      assert s[j..j + |sep|][0] == p[j];
    }
    assert s[|p|..|p| + |sep|] == sep;
    IndexOfIs(s, sep, |p|);
    assert s[..|p|] == p && s[|p| + |sep|..] == t;
  }

  /** Each piece followed by `term`, as a loop of `print` calls writes them. */
  function Terminated(pieces: seq<string>, term: string): string
    decreases |pieces|
  {
    if pieces == [] then "" else pieces[0] + term + Terminated(pieces[1..], term)
  }

  /** `sep.join(pieces) + sep` ends every piece with the separator. */
  lemma {:induction false} JoinTerminated(pieces: seq<string>, sep: string)
    requires pieces != []
    ensures Join(pieces, sep) + sep == Terminated(pieces, sep)
    decreases |pieces|
  {
    if |pieces| > 1 {
      JoinTerminated(pieces[1..], sep);
    }
  }

  /** Lines joined with a trailing newline split back into the lines and an
      empty last piece, when no line holds a newline. */
  lemma SplitJoinedLines(lines: seq<string>)
    requires lines != [] && forall l <- lines :: '\n' !in l
    ensures Split(Join(lines, "\n") + "\n", "\n") == lines + [""]
  {
    assert "\n" == ['\n'];
    JoinAppend(lines, [""], "\n");
    assert Join([""], "\n") == "";
    assert Join(lines, "\n") + "\n" + "" == Join(lines, "\n") + "\n";
    SplitJoin(lines + [""], '\n');
  }

  /** Python's `s.replace(pat, rep)` for a non-empty `pat`: a scan from the
      left that replaces each occurrence not overlapping an earlier one. */
  function Replace(s: string, pat: string, rep: string): string
    requires pat != []
    decreases |s|
  {
    if |s| < |pat| then s
    else if s[..|pat|] == pat then rep + Replace(s[|pat|..], pat, rep)
    else [s[0]] + Replace(s[1..], pat, rep)
  }

  /** `replace` leaves alone a prefix in which `pat` never starts. */
  lemma {:induction false} ReplaceAfter(s: string, n: nat, pat: string, rep: string)
    requires pat != [] && n <= |s|
    requires forall j :: 0 <= j < n ==> !OccursAt(s, pat, j)
    ensures Replace(s, pat, rep) == s[..n] + Replace(s[n..], pat, rep)
    decreases n
  {
    if n > 0 && |s| < |pat| {
      assert s == s[..n] + s[n..];
    } else if n > 0 {
      assert !OccursAt(s, pat, 0);
      var t := s[1..];
      forall j | 0 <= j < n - 1 ensures !OccursAt(t, pat, j) {
        if j + 1 + |pat| <= |s| {
          SliceOfTail(s, j + 1, |pat|);
          assert !OccursAt(s, pat, j + 1);
        }
      }
      ReplaceAfter(t, n - 1, pat, rep);
      assert t[n - 1..] == s[n..];
      assert [s[0]] + t[..n - 1] == s[..n];
    }
  }

  /** An occurrence at the front is replaced, and the scan goes on after it. */
  lemma ReplaceFront(pat: string, u: string, rep: string)
    requires pat != []
    ensures Replace(pat + u, pat, rep) == rep + Replace(u, pat, rep)
  {
    assert (pat + u)[..|pat|] == pat;
    assert (pat + u)[|pat|..] == u;
  }

  /** A front part in which `pat` never starts is kept as it is. */
  lemma ReplaceSkip(a: string, u: string, pat: string, rep: string)
    requires pat != []
    requires forall j :: 0 <= j < |a| ==> !OccursAt(a + u, pat, j)
    ensures Replace(a + u, pat, rep) == a + Replace(u, pat, rep)
  {
    ReplaceAfter(a + u, |a|, pat, rep);
    assert (a + u)[..|a|] == a;
    assert (a + u)[|a|..] == u;
  }

  /** Replacing is splitting on `pat` and joining with `rep`. */
  lemma {:induction false} ReplaceIsSplitJoin(s: string, pat: string, rep: string)
    requires pat != []
    ensures Replace(s, pat, rep) == Join(Split(s, pat), rep)
    decreases |s|
  {
    match IndexOf(s, pat)
    case None =>
      ReplaceAfter(s, |s|, pat, rep);
      assert s[..|s|] == s;
    case Some(i) =>
      var rest := s[i + |pat|..];
      ReplaceAfter(s, i, pat, rep);
      OccursSplit(s, pat, i);
      ReplaceFront(pat, rest, rep);
      ReplaceIsSplitJoin(rest, pat, rep);
      JoinCons(s[..i], Split(rest, pat), rep);
  }

  /** Joining a piece in front of a non-empty list. */
  lemma JoinCons(a: string, pieces: seq<string>, sep: string)
    requires |pieces| >= 1
    ensures Join([a] + pieces, sep) == a + (sep + Join(pieces, sep))
  {
    assert ([a] + pieces)[1..] == pieces;
  }

  /** A string without `pat` is left unchanged by `replace`. */
  lemma ReplaceAbsent(s: string, pat: string, rep: string)
    requires pat != []
    requires !Contains(s, pat)
    ensures Replace(s, pat, rep) == s
  {
    ReplaceAfter(s, |s|, pat, rep);
    assert s[..|s|] == s;
  }

  /** Replacing one character by another works character by character. */
  lemma {:induction false} ReplaceCharAt(s: string, a: char, b: char)
    ensures |Replace(s, [a], [b])| == |s|
    ensures forall i :: 0 <= i < |s| ==>
      Replace(s, [a], [b])[i] == (if s[i] == a then b else s[i])
    decreases |s|
  {
    if s != [] {
      ReplaceCharAt(s[1..], a, b);
      assert s[..1] == [s[0]];
      var r := Replace(s, [a], [b]);
      assert r == [if s[0] == a then b else s[0]] + Replace(s[1..], [a], [b]);
      forall i | 0 < i < |s| ensures r[i] == (if s[i] == a then b else s[i]) {
        assert s[1..][i - 1] == s[i];
        assert r[i] == Replace(s[1..], [a], [b])[i - 1];
      }
    }
  }

  /** Python's ASCII case mapping for one character. */
  function LowerChar(c: char): char {
    if 'A' <= c <= 'Z' then (c as int + 32) as char else c
  }

  /** Python's `s.lower()`, restricted to ASCII letters. */
  function Lower(s: string): string
    decreases |s|
  {
    if s == [] then [] else [LowerChar(s[0])] + Lower(s[1..])
  }

  lemma {:induction false} LowerAt(s: string)
    ensures |Lower(s)| == |s|
    ensures forall i :: 0 <= i < |s| ==> Lower(s)[i] == LowerChar(s[i])
    decreases |s|
  {
    if s != [] {
      LowerAt(s[1..]);
      forall i | 0 <= i < |s| ensures Lower(s)[i] == LowerChar(s[i]) {
        if i > 0 {
          assert Lower(s)[i] == Lower(s[1..])[i - 1];
        }
      }
    }
  }

  /** The characters Python's `str.strip()` removes (the ASCII ones). */
  predicate IsSpace(c: char) {
    c == ' ' || (9 <= c as int <= 13) || (28 <= c as int <= 31)
  }

  /** `s.lstrip()`: drops exactly the leading whitespace. */
  function StripLeft(s: string): (r: string)
    ensures |r| <= |s| && r == s[|s| - |r|..]
    ensures forall k :: 0 <= k < |s| - |r| ==> IsSpace(s[k])
    ensures r == [] || !IsSpace(r[0])
    decreases |s|
  {
    if s != [] && IsSpace(s[0]) then
      var r := StripLeft(s[1..]);
      assert forall k :: 1 <= k < |s| ==> s[k] == s[1..][k - 1];
      r
    else s
  }

  /** `s.rstrip()`: drops exactly the trailing whitespace. */
  function StripRight(s: string): (r: string)
    ensures |r| <= |s| && r == s[..|r|]
    ensures forall k :: |r| <= k < |s| ==> IsSpace(s[k])
    ensures r == [] || !IsSpace(r[|r| - 1])
    decreases |s|
  {
    if s != [] && IsSpace(s[|s| - 1]) then StripRight(s[..|s| - 1]) else s
  }

  /** `r` is `s[i..j]`, and everything of `s` before `i` and from `j` on is whitespace. */
  predicate TrimmedInfix(s: string, r: string, i: int, j: int) {
    0 <= i <= j <= |s| && r == s[i..j] &&
    (forall k :: 0 <= k < i ==> IsSpace(s[k])) && (forall k :: j <= k < |s| ==> IsSpace(s[k]))
  }

  /** A whitespace-trimmed prefix `r` of a whitespace-trimmed suffix `l` of
      `s` is a trimmed infix of `s`. */
  lemma TrimmedOfTrimmed(s: string, l: string, r: string)
    requires |l| <= |s| && l == s[|s| - |l|..]
    requires forall k :: 0 <= k < |s| - |l| ==> IsSpace(s[k])
    requires |r| <= |l| && r == l[..|r|]
    requires forall k :: |r| <= k < |l| ==> IsSpace(l[k])
    ensures TrimmedInfix(s, r, |s| - |l|, |s| - |l| + |r|)
  {
    var i := |s| - |l|;
    assert r == s[i..i + |r|];
    forall k | i + |r| <= k < |s| ensures IsSpace(s[k]) {
      assert s[k] == l[k - i];
    }
  }

  /** Python's `s.strip()`: the infix left once the leading and trailing
      whitespace is dropped; it neither starts nor ends with whitespace. */
  function Strip(s: string): (r: string)
    ensures exists i, j :: TrimmedInfix(s, r, i, j)
    ensures r == [] || (!IsSpace(r[0]) && !IsSpace(r[|r| - 1]))
  {
    var l := StripLeft(s);
    var r := StripRight(l);
    TrimmedOfTrimmed(s, l, r);
    assert r != [] ==> r[0] == l[0];
    r
  }

  lemma StripUnchanged(s: string)
    requires s == [] || (!IsSpace(s[0]) && !IsSpace(s[|s| - 1]))
    ensures Strip(s) == s
  {
  }

  // ---- Decimal numbers: Python's str(n) and int(s) ----

  predicate IsDigit(c: char) {
    '0' <= c <= '9'
  }

  predicate AllDigits(s: string) {
    forall i :: 0 <= i < |s| ==> IsDigit(s[i])
  }

  function DigitChar(d: int): (c: char)
    requires 0 <= d < 10
    ensures IsDigit(c)
  {
    ('0' as int + d) as char
  }

  function DigitValue(c: char): (d: int)
    requires IsDigit(c)
    ensures 0 <= d < 10
  {
    c as int - '0' as int
  }

  /** The value of a string of decimal digits (0 for the empty string). */
  function DigitsValue(s: string): nat
    requires AllDigits(s)
    decreases |s|
  {
    if s == [] then 0 else DigitsValue(s[..|s| - 1]) * 10 + DigitValue(s[|s| - 1])
  }

  /** The decimal digits of a natural number, without leading zeros. */
  function NatToString(n: nat): (r: string)
    ensures |r| >= 1 && AllDigits(r)
    decreases n
  {
    if n < 10 then [DigitChar(n)] else NatToString(n / 10) + [DigitChar(n % 10)]
  }

  /** Python's `str(n)` for an int. */
  function IntToString(n: int): string {
    if n < 0 then "-" + NatToString(-n) else NatToString(n)
  }

  /** Python's `int(s)`: optional surrounding whitespace, an optional sign, then
      one or more decimal digits; anything else raises ValueError. */
  function ParseInt(s: string): (r: Result<int>) {
    var t := Strip(s);
    if |t| >= 2 && (t[0] == '-' || t[0] == '+') && AllDigits(t[1..]) then
      var magnitude: int := DigitsValue(t[1..]);
      Ok(if t[0] == '-' then -magnitude else magnitude)
    else if |t| >= 1 && AllDigits(t) then
      Ok(DigitsValue(t))
    else
      Err(ValueError(s))
  }

  lemma {:induction false} NatToStringValue(n: nat)
    ensures DigitsValue(NatToString(n)) == n
    decreases n
  {
    var r := NatToString(n);
    if n >= 10 {
      NatToStringValue(n / 10);
      assert r[..|r| - 1] == NatToString(n / 10);
    }
  }

  /** `int(str(n)) == n`. */
  lemma ParseIntToString(n: int)
    ensures ParseInt(IntToString(n)) == Ok(n)
  {
    var s := IntToString(n);
    var digits := NatToString(if n < 0 then -n else n);
    NatToStringValue(if n < 0 then -n else n);
    assert !IsSpace(s[0]) && !IsSpace(s[|s| - 1]) by {
      assert IsDigit(digits[|digits| - 1]);
      assert s[|s| - 1] == digits[|digits| - 1];
      if n >= 0 { assert IsDigit(digits[0]); }
    }
    StripUnchanged(s);
    if n < 0 {
      assert s[1..] == digits;
    } else {
      assert !(s[0] == '-' || s[0] == '+') by { assert IsDigit(digits[0]); }
    }
  }

  /** The value of the digits after a decimal point: each digit counts a
      tenth of the one before it, so the value is below one. */
  function FractionValue(fraction: string): (r: real)
    requires AllDigits(fraction)
    ensures 0.0 <= r < 1.0
    decreases |fraction|
  {
    if fraction == [] then 0.0
    else (DigitValue(fraction[0]) as real + FractionValue(fraction[1..])) / 10.0
  }

  /** The value of the decimal `whole.fraction`. */
  function DecimalValue(whole: string, fraction: string): (r: real)
    requires AllDigits(whole) && AllDigits(fraction)
    ensures DigitsValue(whole) as real <= r < DigitsValue(whole) as real + 1.0
  {
    DigitsValue(whole) as real + FractionValue(fraction)
  }

  /** Python's `float(s)` on a plain decimal literal (optional surrounding
      whitespace, an optional sign, digits with at most one decimal point and at
      least one digit), read exactly as a real number; anything else raises
      ValueError. */
  function ParseFloat(s: string): (r: Result<real>) {
    match SignedDecimal(Strip(s))
    case Some(value) => Ok(value)
    case None => Err(ValueError(s))
  }

  /** A stripped decimal literal with an optional sign. */
  function SignedDecimal(t: string): Option<real> {
    var negative := |t| > 0 && t[0] == '-';
    var body := if |t| > 0 && (t[0] == '-' || t[0] == '+') then t[1..] else t;
    match UnsignedDecimal(body)
    case Some(magnitude) => Some(if negative then -magnitude else magnitude)
    case None => None
  }

  /** Text without surrounding whitespace or a sign is read as an unsigned decimal. */
  lemma UnsignedFloat(t: string)
    requires t != [] && !IsSpace(t[0]) && !IsSpace(t[|t| - 1]) && t[0] != '-' && t[0] != '+'
    ensures UnsignedDecimal(t).Some? ==> ParseFloat(t) == Ok(UnsignedDecimal(t).value)
    ensures UnsignedDecimal(t).None? ==> ParseFloat(t) == Err(ValueError(t))
  {
    StripUnchanged(t);
  }

  /** An unsigned decimal literal: digits with at most one point and at least one digit. */
  function UnsignedDecimal(body: string): (r: Option<real>)
    ensures r.Some? ==> r.value >= 0.0
  {
    var parts := SplitOnce(body, ".");
    var whole := parts[0];
    var fraction := if |parts| == 2 then parts[1] else "";
    if AllDigits(whole) && AllDigits(fraction) && |whole| + |fraction| >= 1 then
      Some(DecimalValue(whole, fraction))
    else
      None
  }

  /** Whatever `int()` accepts, `float()` reads as the same number. */
  lemma ParseIntAgreesWithFloat(s: string)
    requires ParseInt(s).Ok?
    ensures ParseFloat(s) == Ok(ParseInt(s).value as real)
  {
    var t := Strip(s);
    if |t| >= 2 && (t[0] == '-' || t[0] == '+') && AllDigits(t[1..]) {
      SignedDigitsAgree(t);
    } else {
      assert IsDigit(t[0]);
      UnsignedDigitsAgree(t);
    }
  }

  /** A sign followed by digits is read by `float()` as the signed value of the digits. */
  lemma SignedDigitsAgree(t: string)
    requires |t| >= 2 && (t[0] == '-' || t[0] == '+') && AllDigits(t[1..])
    ensures SignedDecimal(t) == Some(if t[0] == '-' then -(DigitsValue(t[1..]) as real) else DigitsValue(t[1..]) as real)
  {
    var body := t[1..];
    DigitsAreDecimal(body);
    var magnitude := DigitsValue(body) as real;
    assert UnsignedDecimal(body) == Some(magnitude);
  }

  /** Digits alone are read by `float()` as their value. */
  lemma UnsignedDigitsAgree(t: string)
    requires |t| >= 1 && AllDigits(t)
    ensures SignedDecimal(t) == Some(DigitsValue(t) as real)
  {
    assert IsDigit(t[0]);
    DigitsAreDecimal(t);
  }

  /** Digits alone are a decimal literal with no fraction. */
  lemma DigitsAreDecimal(body: string)
    requires AllDigits(body) && |body| >= 1
    ensures UnsignedDecimal(body) == Some(DigitsValue(body) as real)
  {
    assert FractionValue("") == 0.0;
    assert DecimalValue(body, "") == DigitsValue(body) as real;
    NoPoint(body);
    assert SplitOnce(body, ".") == [body];
  }

  /** Digits hold no decimal point. */
  lemma NoPoint(body: string)
    requires AllDigits(body)
    ensures !Contains(body, ".")
  {
    ContainsChar(body, '.');
    assert "." == ['.'];
    assert forall i :: 0 <= i < |body| ==> IsDigit(body[i]);
  }
}
