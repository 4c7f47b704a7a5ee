/**
  The Python string built-ins the scraper relies on, as functions over
  `seq<char>`: `str()` of a non-negative integer, `split` and `join` on one
  separator character, ASCII `lower`, `replace(pattern, '')`, `strip(',')`
  and `sorted` on a list of strings.
 */
module PyStr {

  // ---------------------------------------------------------------------
  // Decimal spelling of integers (Python's str() on a non-negative int)
  // ---------------------------------------------------------------------

  predicate IsDigit(c: char) {
    '0' <= c <= '9'
  }

  predicate AllDigits(s: string) {
    forall i :: 0 <= i < |s| ==> IsDigit(s[i])
  }

  function DigitChar(d: nat): (c: char)
    requires d < 10
    ensures IsDigit(c) && c as int - '0' as int == d
  {
    ('0' as int + d) as char
  }

  /** `str(n)`: the shortest decimal spelling of n, without leading zeros. */
  function NatToString(n: nat): (s: string)
    ensures |s| >= 1 && AllDigits(s)
  {
    if n < 10 then [DigitChar(n)] else NatToString(n / 10) + [DigitChar(n % 10)]
  }

  /** The spelling has no leading zero, and has one digit exactly below ten and two from ten to 99. */
  lemma {:induction false} NatToStringLength(n: nat)
    ensures (NatToString(n)[0] == '0') <==> n == 0
    ensures |NatToString(n)| == 1 <==> n < 10
    ensures 10 <= n < 100 ==> |NatToString(n)| == 2
  {
    if n >= 10 {
      NatToStringLength(n / 10);
    }
  }

  /** The number a string of decimal digits denotes (leading zeros allowed). */
  function DecimalValue(s: string): nat
    requires AllDigits(s)
  {
    if |s| == 0 then 0 else 10 * DecimalValue(s[..|s| - 1]) + (s[|s| - 1] as int - '0' as int)
  }

  /** Reading back the decimal spelling gives the number. */
  lemma {:induction false} DecimalValueOfNatToString(n: nat)
    ensures DecimalValue(NatToString(n)) == n
  {
    if n >= 10 {
      var s := NatToString(n);
      assert s[..|s| - 1] == NatToString(n / 10);
      DecimalValueOfNatToString(n / 10);
    }
  }

  // ---------------------------------------------------------------------
  // split(sep) and sep.join(...)
  // ---------------------------------------------------------------------

  /** Total length of a list of strings. */
  function SumLen(ws: seq<string>): nat {
    if |ws| == 0 then 0 else SumLen(ws[..|ws| - 1]) + |ws[|ws| - 1]|
  }

  lemma {:induction false} SumLenConcat(a: seq<string>, b: seq<string>)
    ensures SumLen(a + b) == SumLen(a) + SumLen(b)
    decreases |b|
  {
    if |b| > 0 {
      assert (a + b)[..|a + b| - 1] == a + b[..|b| - 1];
      SumLenConcat(a, b[..|b| - 1]);
    } else {
      assert a + b == a;
    }
  }

  /**
    Python's `s.split(sep)` with an explicit separator: the pieces between
    separators, empty pieces included, so `"".split(sep) == [""]`.
   */
  function Split(s: string, sep: char): (ws: seq<string>)
    ensures |ws| >= 1
  {
    if |s| == 0 then [""]
    else
      var init := Split(s[..|s| - 1], sep);
      if s[|s| - 1] == sep then init + [""]
      else init[..|init| - 1] + [init[|init| - 1] + [s[|s| - 1]]]
  }

  /** Python's `sep.join(ws)`. */
  function Join(ws: seq<string>, sep: char): string {
    if |ws| == 0 then ""
    else if |ws| == 1 then ws[0]
    else Join(ws[..|ws| - 1], sep) + [sep] + ws[|ws| - 1]
  }

  /** No piece of a split holds the separator. */
  lemma {:induction false} SplitPiecesLackSeparator(s: string, sep: char)
    ensures forall i :: 0 <= i < |Split(s, sep)| ==> sep !in Split(s, sep)[i]
  {
    if |s| > 0 {
      SplitPiecesLackSeparator(s[..|s| - 1], sep);
    }
  }

  /** The last piece of `s.split(sep)`, i.e. `s.split(sep)[-1]`. */
  function LastPiece(s: string, sep: char): (p: string)
    ensures sep !in p
  {
    var ws := Split(s, sep);
    SplitPiecesLackSeparator(s, sep);
    ws[|ws| - 1]
  }

  lemma {:induction false} SplitWithoutSeparator(s: string, sep: char)
    requires sep !in s
    ensures Split(s, sep) == [s]
  {
    if |s| > 0 {
      assert sep !in s[..|s| - 1];
      SplitWithoutSeparator(s[..|s| - 1], sep);
      assert s[..|s| - 1] + [s[|s| - 1]] == s;
    }
  }

  /** Appends c to the last piece of a non-empty list of pieces. */
  function ExtendLast(ws: seq<string>, c: char): (r: seq<string>)
    requires |ws| >= 1
    ensures |r| == |ws|
  {
    ws[..|ws| - 1] + [ws[|ws| - 1] + [c]]
  }

  /** Splitting a string with one more character, in terms of splitting the shorter one. */
  lemma SplitSnoc(s: string, c: char, sep: char)
    ensures Split(s + [c], sep) == if c == sep then Split(s, sep) + [""] else ExtendLast(Split(s, sep), c)
  {
    assert (s + [c])[..|s + [c]| - 1] == s;
  }

  lemma ExtendLastConcat(a: seq<string>, b: seq<string>, c: char)
    requires |b| >= 1
    ensures ExtendLast(a + b, c) == a + ExtendLast(b, c)
  {
    assert (a + b)[..|a + b| - 1] == a + b[..|b| - 1];
  }

  /** Splitting around one separator splits each side independently. */
  lemma {:induction false} SplitAround(a: string, b: string, sep: char)
    ensures Split(a + [sep] + b, sep) == Split(a, sep) + Split(b, sep)
    decreases |b|
  {
    if |b| == 0 {
      assert a + [sep] + b == a + [sep];
      SplitSnoc(a, sep, sep);
    } else {
      var b', c := b[..|b| - 1], b[|b| - 1];
      SplitAround(a, b', sep);
      assert b' + [c] == b;
      assert a + [sep] + b == a + [sep] + b' + [c];
      SplitAroundSnoc(a, b', c, sep);
    }
  }

  /** The step of `SplitAround`: one more character after the separator. */
  lemma SplitAroundSnoc(a: string, b: string, c: char, sep: char)
    requires Split(a + [sep] + b, sep) == Split(a, sep) + Split(b, sep)
    ensures Split(a + [sep] + b + [c], sep) == Split(a, sep) + Split(b + [c], sep)
  {
    var front := a + [sep] + b;
    var pa, pb := Split(a, sep), Split(b, sep);
    if c == sep {
      assert Split(b + [c], sep) == pb + [""] by { SplitSnoc(b, c, sep); }
      assert Split(front + [c], sep) == (pa + pb) + [""] by { SplitSnoc(front, c, sep); }
      assert (pa + pb) + [""] == pa + (pb + [""]);
    } else {
      assert Split(b + [c], sep) == ExtendLast(pb, c) by { SplitSnoc(b, c, sep); }
      assert Split(front + [c], sep) == ExtendLast(pa + pb, c) by { SplitSnoc(front, c, sep); }
      ExtendLastConcat(pa, pb, c);
    }
  }

  /** The last piece of a string with no separator is the whole string. */
  lemma LastPieceWhole(b: string, sep: char)
    requires sep !in b
    ensures LastPiece(b, sep) == b
  {
    SplitWithoutSeparator(b, sep);
  }

  /** The last piece is whatever follows the last separator. */
  lemma LastPieceAfterSeparator(a: string, b: string, sep: char)
    requires sep !in b
    ensures LastPiece(a + [sep] + b, sep) == b
  {
    SplitAround(a, b, sep);
    SplitWithoutSeparator(b, sep);
    var ws := Split(a + [sep] + b, sep);
    assert ws == Split(a, sep) + [b];
    assert ws[|ws| - 1] == b;
  }

  /** `sep.join(s.split(sep)) == s`. */
  lemma {:induction false} JoinSplit(s: string, sep: char)
    ensures Join(Split(s, sep), sep) == s
  {
    if |s| > 0 {
      var s', c := s[..|s| - 1], s[|s| - 1];
      assert s' + [c] == s;
      JoinSplit(s', sep);
      SplitSnoc(s', c, sep);
      if c == sep {
        JoinSnocEmpty(Split(s', sep), sep);
      } else {
        JoinExtendLast(Split(s', sep), c, sep);
      }
    }
  }

  /** Starting a new, empty last piece adds one separator to the join. */
  lemma JoinSnocEmpty(ws: seq<string>, sep: char)
    requires |ws| >= 1
    ensures Join(ws + [""], sep) == Join(ws, sep) + [sep]
  {
    assert (ws + [""])[..|ws|] == ws;
  }

  /** Extending the last piece extends the join by the same character. */
  lemma JoinExtendLast(ws: seq<string>, c: char, sep: char)
    requires |ws| >= 1
    ensures Join(ExtendLast(ws, c), sep) == Join(ws, sep) + [c]
  {
    var n := |ws|;
    var e := ExtendLast(ws, c);
    if n == 1 {
      assert e == [ws[0] + [c]];
    } else {
      var init, last := ws[..n - 1], ws[n - 1];
      assert e[..n - 1] == init && e[n - 1] == last + [c];
      var j := Join(init, sep);
      assert Join(e, sep) == j + [sep] + (last + [c]);
      assert Join(ws, sep) == j + [sep] + last;
    }
  }

  /** `sep.join(ws).split(sep) == ws` when no piece holds the separator. */
  lemma {:induction false} SplitJoin(ws: seq<string>, sep: char)
    requires |ws| >= 1
    requires forall i :: 0 <= i < |ws| ==> sep !in ws[i]
    ensures Split(Join(ws, sep), sep) == ws
  {
    if |ws| == 1 {
      SplitWithoutSeparator(ws[0], sep);
    } else {
      var init := ws[..|ws| - 1];
      SplitJoin(init, sep);
      SplitAround(Join(init, sep), ws[|ws| - 1], sep);
      SplitWithoutSeparator(ws[|ws| - 1], sep);
      assert init + [ws[|ws| - 1]] == ws;
    }
  }

  /** The pieces of a split and the separators between them make up the string. */
  lemma {:induction false} SplitLength(s: string, sep: char)
    ensures SumLen(Split(s, sep)) + |Split(s, sep)| == |s| + 1
  {
    if |s| > 0 {
      var s' := s[..|s| - 1];
      SplitLength(s', sep);
      var p := Split(s', sep);
      var ws := Split(s, sep);
      if s[|s| - 1] == sep {
        assert ws[..|ws| - 1] == p;
      } else {
        var n := |p|;
        assert ws[..|ws| - 1] == p[..n - 1];
        assert p[..n - 1] + [p[n - 1]] == p;
        SumLenConcat(p[..n - 1], [p[n - 1]]);
        SumLenConcat(p[..n - 1], [p[n - 1] + [s[|s| - 1]]]);
        assert SumLen([p[n - 1]]) == |p[n - 1]| by {
          assert [p[n - 1]][..0] == [];
        }
        assert SumLen([p[n - 1] + [s[|s| - 1]]]) == |p[n - 1]| + 1 by {
          assert [p[n - 1] + [s[|s| - 1]]][..0] == [];
        }
      }
    }
  }

  /** A join of non-empty pieces starts with the first piece and ends with the last. */
  lemma {:induction false} JoinEnds(ws: seq<string>, sep: char)
    requires |ws| >= 1
    ensures |Join(ws, sep)| >= |ws[0]| && |Join(ws, sep)| >= |ws[|ws| - 1]|
    ensures Join(ws, sep)[..|ws[0]|] == ws[0]
    ensures Join(ws, sep)[|Join(ws, sep)| - |ws[|ws| - 1]|..] == ws[|ws| - 1]
  {
    if |ws| >= 2 {
      var init := ws[..|ws| - 1];
      JoinEnds(init, sep);
      assert init[0] == ws[0];
    }
  }

  // ---------------------------------------------------------------------
  // lower(), replace(pattern, ''), strip(',')
  // ---------------------------------------------------------------------

  function LowerChar(c: char): char {
    if 'A' <= c <= 'Z' then (c as int + 32) as char else c
  }

  /** `s.lower()` on ASCII letters; every other character is kept. */
  function Lower(s: string): (r: string)
    ensures |r| == |s|
  {
    seq(|s|, i requires 0 <= i < |s| => LowerChar(s[i]))
  }

  /**
    No upper-case ASCII letter survives `lower()`, each one becomes its own
    lower-case letter (32 code points on), every other character is kept,
    and lowering twice changes nothing more.
   */
  lemma LowerFoldsCase(s: string)
    ensures forall i :: 0 <= i < |s| ==> !('A' <= Lower(s)[i] <= 'Z')
    ensures forall i :: 0 <= i < |s| && 'A' <= s[i] <= 'Z' ==> 'a' <= Lower(s)[i] <= 'z'
    ensures forall i :: 0 <= i < |s| && 'A' <= s[i] <= 'Z' ==> Lower(s)[i] as int == s[i] as int + 32
    ensures forall i :: 0 <= i < |s| && !('A' <= s[i] <= 'Z') ==> Lower(s)[i] == s[i]
    ensures Lower(Lower(s)) == Lower(s)
  {
    var r := Lower(s);
    forall i | 0 <= i < |s| ensures LowerChar(r[i]) == r[i] {
      assert r[i] == LowerChar(s[i]);
    }
  }

  /**
    `s.replace(pat, '')`: every occurrence of the literal `pat`, found left to
    right without overlap, is removed.
   */
  function RemoveAll(s: string, pat: string): (r: string)
    requires |pat| > 0
    ensures |r| <= |s|
    decreases |s|
  {
    if |s| < |pat| then s
    else if s[..|pat|] == pat then RemoveAll(s[|pat|..], pat)
    else [s[0]] + RemoveAll(s[1..], pat)
  }

  /** Whether the literal `pat` occurs in s starting at position i. */
  predicate OccursAt(pat: string, s: string, i: int) {
    0 <= i <= |s| - |pat| && s[i..i + |pat|] == pat
  }

  /** `pat` does not start anywhere in s before position i. */
  ghost predicate NoOccurrenceBefore(pat: string, s: string, i: int) {
    forall j :: 0 <= j < i ==> !OccursAt(pat, s, j)
  }

  /** Whether the literal `pat` occurs anywhere in s. */
  ghost predicate Occurs(pat: string, s: string) {
    exists i :: OccursAt(pat, s, i)
  }

  /**
    `replace(pat, '')` removes the whole literal and nothing else: a string
    in which `pat` does not occur comes back unchanged, whatever characters
    of `pat` it holds.
   */
  lemma {:induction false} RemoveAllWithoutOccurrence(s: string, pat: string)
    requires |pat| > 0 && !Occurs(pat, s)
    ensures RemoveAll(s, pat) == s
    decreases |s|
  {
    if |s| >= |pat| {
      NotAtFront(pat, s);
      NotInTail(pat, s);
      RemoveAllWithoutOccurrence(s[1..], pat);
      assert [s[0]] + s[1..] == s;
    }
  }

  lemma NotAtFront(pat: string, s: string)
    requires |s| >= |pat| && !Occurs(pat, s)
    ensures s[..|pat|] != pat
  {
    assert !OccursAt(pat, s, 0);
    assert s[0..0 + |pat|] == s[..|pat|];
  }

  lemma NotInTail(pat: string, s: string)
    requires |s| > 0 && !Occurs(pat, s)
    ensures !Occurs(pat, s[1..])
  {
    var t := s[1..];
    forall i | 0 <= i <= |t| - |pat| ensures !OccursAt(pat, t, i) {
      assert !OccursAt(pat, s, i + 1);
      assert s[i + 1..i + 1 + |pat|] == t[i..i + |pat|];
    }
  }

  /**
    The first occurrence of `pat`, wherever it starts, is removed: everything
    before it is kept, and the text after it is processed on its own.
   */
  lemma RemoveAllFirstOccurrence(s: string, pat: string, i: int)
    requires |pat| > 0 && OccursAt(pat, s, i) && NoOccurrenceBefore(pat, s, i)
    ensures RemoveAll(s, pat) == s[..i] + RemoveAll(s[i + |pat|..], pat)
  {
    RemoveAllFromBefore(s, pat, i, 0);
    assert s[0..] == s;
  }

  /** From any position k up to the first occurrence at i, the text before i is kept. */
  lemma {:induction false} RemoveAllFromBefore(s: string, pat: string, i: int, k: int)
    requires |pat| > 0 && OccursAt(pat, s, i) && NoOccurrenceBefore(pat, s, i) && 0 <= k <= i
    ensures RemoveAll(s[k..], pat) == s[k..i] + RemoveAll(s[i + |pat|..], pat)
    decreases i - k
  {
    if k == i {
      RemoveAllAtOccurrence(s, pat, i);
    } else {
      RemoveAllFromBefore(s, pat, i, k + 1);
      assert !OccursAt(pat, s, k);
      RemoveAllKeepsChar(s, pat, i, k, RemoveAll(s[i + |pat|..], pat));
    }
  }

  /** At the occurrence itself, the pattern is deleted. */
  lemma RemoveAllAtOccurrence(s: string, pat: string, i: int)
    requires |pat| > 0 && OccursAt(pat, s, i)
    ensures RemoveAll(s[i..], pat) == s[i..i] + RemoveAll(s[i + |pat|..], pat)
  {
    var t := s[i..];
    assert t[0..0 + |pat|] == s[i..i + |pat|];
    RemoveAllAtFront(t, pat);
    assert t[|pat|..] == s[i + |pat|..];
    assert s[i..i] + RemoveAll(s[i + |pat|..], pat) == RemoveAll(s[i + |pat|..], pat);
  }

  /** Before the first occurrence, a character is kept in front of what follows it. */
  lemma RemoveAllKeepsChar(s: string, pat: string, i: int, k: int, rest: string)
    requires |pat| > 0 && 0 <= k < i && i + |pat| <= |s| && !OccursAt(pat, s, k)
    requires RemoveAll(s[k + 1..], pat) == s[k + 1..i] + rest
    ensures RemoveAll(s[k..], pat) == s[k..i] + rest
  {
    SuffixSlices(s, k, |pat|, i);
    RemoveAllKeepsFront(s[k..], pat);
    ConsAssociates(s[k], s[k + 1..i], rest);
  }

  /** How the slices of the suffix `s[k..]` sit in s. */
  lemma SuffixSlices(s: string, k: int, n: int, i: int)
    requires 0 <= k < i <= |s| && 0 <= n && k + n <= |s|
    ensures s[k..][0..0 + n] == s[k..k + n]
    ensures s[k..][1..] == s[k + 1..]
    ensures [s[k]] + s[k + 1..i] == s[k..i]
  {
    assert s[k..i][0] == s[k] && s[k..i][1..] == s[k + 1..i];
  }

  lemma ConsAssociates(c: char, a: string, r: string)
    ensures [c] + (a + r) == [c] + a + r
  {
  }

  /** An occurrence at the front is removed first. */
  lemma RemoveAllAtFront(s: string, pat: string)
    requires |pat| > 0 && OccursAt(pat, s, 0)
    ensures RemoveAll(s, pat) == RemoveAll(s[|pat|..], pat)
  {
    assert s[0..0 + |pat|] == s[..|pat|];
  }

  /** Without an occurrence at the front, the first character is kept. */
  lemma RemoveAllKeepsFront(s: string, pat: string)
    requires |pat| > 0 && |s| >= |pat| && !OccursAt(pat, s, 0)
    ensures RemoveAll(s, pat) == [s[0]] + RemoveAll(s[1..], pat)
  {
    assert s[0..0 + |pat|] == s[..|pat|];
  }

  /** An occurrence at the front is removed, and the rest is processed on its own. */
  lemma RemoveAllLeading(pat: string, s: string)
    requires |pat| > 0
    ensures RemoveAll(pat + s, pat) == RemoveAll(s, pat)
  {
    assert (pat + s)[..|pat|] == pat;
    assert (pat + s)[|pat|..] == s;
  }

  function StripLeading(s: string, c: char): (r: string)
    ensures |r| <= |s| && r == s[|s| - |r|..]
    ensures r == "" || r[0] != c
  {
    if |s| > 0 && s[0] == c then StripLeading(s[1..], c) else s
  }

  /** What `lstrip(c)` drops is a run of c. */
  lemma {:induction false} StripLeadingDropsOnly(s: string, c: char)
    ensures forall i :: 0 <= i < |s| - |StripLeading(s, c)| ==> s[i] == c
  {
    if |s| > 0 && s[0] == c {
      var t := s[1..];
      StripLeadingDropsOnly(t, c);
      forall i | 0 < i < |s| - |StripLeading(s, c)| ensures s[i] == c {
        assert s[i] == t[i - 1];
      }
    }
  }

  function StripTrailing(s: string, c: char): (r: string)
    ensures |r| <= |s| && r == s[..|r|]
    ensures r == "" || r[|r| - 1] != c
  {
    if |s| > 0 && s[|s| - 1] == c then StripTrailing(s[..|s| - 1], c) else s
  }

  /** What `rstrip(c)` drops is a run of c. */
  lemma {:induction false} StripTrailingDropsOnly(s: string, c: char)
    ensures forall i :: |StripTrailing(s, c)| <= i < |s| ==> s[i] == c
  {
    if |s| > 0 && s[|s| - 1] == c {
      var t := s[..|s| - 1];
      StripTrailingDropsOnly(t, c);
      forall i | |StripTrailing(s, c)| <= i < |s| - 1 ensures s[i] == c {
        assert s[i] == t[i];
      }
    }
  }

  /** `s.strip(c)`: c removed from both ends. */
  function Strip(s: string, c: char): (r: string)
    ensures |r| <= |s|
    ensures r == "" || (r[0] != c && r[|r| - 1] != c)
  {
    var l := StripLeading(s, c);
    var r := StripTrailing(l, c);
    assert r != "" ==> r[0] == l[0];
    r
  }

  /**
    `strip(c)` keeps a middle slice of the string: everything before it and
    everything after it is c.
   */
  lemma StripKeepsMiddle(s: string, c: char)
    ensures MiddleSlice(s, Strip(s, c), |s| - |StripLeading(s, c)|, c)
  {
    var l := StripLeading(s, c);
    var r := StripTrailing(l, c);
    assert Strip(s, c) == r;
    StripLeadingDropsOnly(s, c);
    StripTrailingDropsOnly(l, c);
    PrefixOfSuffix(s, l, r, c);
  }

  /** r is the slice of s from i, and every character of s outside it is c. */
  predicate MiddleSlice(s: string, r: string, i: int, c: char) {
    && 0 <= i && i + |r| <= |s| && r == s[i..i + |r|]
    && (forall k :: 0 <= k < i ==> s[k] == c)
    && (forall k :: i + |r| <= k < |s| ==> s[k] == c)
  }

  /** A prefix r of a suffix l of s, with only c around it, is a middle slice of s. */
  lemma PrefixOfSuffix(s: string, l: string, r: string, c: char)
    requires |l| <= |s| && l == s[|s| - |l|..]
    requires forall k :: 0 <= k < |s| - |l| ==> s[k] == c
    requires |r| <= |l| && r == l[..|r|]
    requires forall k :: |r| <= k < |l| ==> l[k] == c
    ensures MiddleSlice(s, r, |s| - |l|, c)
  {
    var i := |s| - |l|;
    forall k | i + |r| <= k < |s| ensures s[k] == c {
      assert s[k] == l[k - i];
    }
  }

  /** A string that ends with c loses at least that character to `strip(c)`. */
  lemma StripShortens(s: string, c: char)
    requires |s| > 0 && s[|s| - 1] == c
    ensures |Strip(s, c)| < |s|
  {
    var l := StripLeading(s, c);
    if l != "" {
      SuffixKeepsLast(s, l);
      StripTrailingShortens(l, c);
    }
  }

  lemma SuffixKeepsLast(s: string, l: string)
    requires 0 < |l| <= |s| && l == s[|s| - |l|..]
    ensures l[|l| - 1] == s[|s| - 1]
  {
  }

  lemma StripTrailingShortens(l: string, c: char)
    requires |l| > 0 && l[|l| - 1] == c
    ensures |StripTrailing(l, c)| < |l|
  {
    assert StripTrailing(l, c) == StripTrailing(l[..|l| - 1], c);
  }

  // ---------------------------------------------------------------------
  // sorted() on strings: code-point lexicographic order
  // ---------------------------------------------------------------------

  /** Python's `a <= b` on strings. */
  predicate LexLe(a: string, b: string) {
    |a| == 0 || (|b| > 0 && (a[0] < b[0] || (a[0] == b[0] && LexLe(a[1..], b[1..]))))
  }

  lemma {:induction false} LexLeTotal(a: string, b: string)
    ensures LexLe(a, b) || LexLe(b, a)
  {
    if |a| > 0 && |b| > 0 && a[0] == b[0] {
      LexLeTotal(a[1..], b[1..]);
    }
  }

  lemma {:induction false} LexLeTransitive(a: string, b: string, c: string)
    requires LexLe(a, b) && LexLe(b, c)
    ensures LexLe(a, c)
  {
    if |a| > 0 && a[0] == b[0] && b[0] == c[0] {
      LexLeTransitive(a[1..], b[1..], c[1..]);
    }
  }

  lemma {:induction false} LexLeAntisymmetric(a: string, b: string)
    requires LexLe(a, b) && LexLe(b, a)
    ensures a == b
  {
    if |a| > 0 {
      LexLeAntisymmetric(a[1..], b[1..]);
      assert a == [a[0]] + a[1..] && b == [b[0]] + b[1..];
    }
  }

  ghost predicate Sorted(ws: seq<string>) {
    forall i, j :: 0 <= i < j < |ws| ==> LexLe(ws[i], ws[j])
  }

  /** Inserts x before the first element it does not exceed. */
  function Insert(x: string, ws: seq<string>): (r: seq<string>)
    ensures |r| == |ws| + 1
    ensures multiset(r) == multiset(ws) + multiset{x}
  {
    if |ws| == 0 then [x]
    else if LexLe(x, ws[0]) then [x] + ws
    else
      assert ws == [ws[0]] + ws[1..];
      [ws[0]] + Insert(x, ws[1..])
  }

  /** `sorted(ws)`, by insertion. */
  function Sort(ws: seq<string>): (r: seq<string>)
    ensures |r| == |ws|
    ensures multiset(r) == multiset(ws)
  {
    if |ws| == 0 then []
    else
      assert ws == [ws[0]] + ws[1..];
      Insert(ws[0], Sort(ws[1..]))
  }

  lemma {:induction false} InsertSorted(x: string, ws: seq<string>)
    requires Sorted(ws)
    ensures Sorted(Insert(x, ws))
  {
    if |ws| > 0 {
      if LexLe(x, ws[0]) {
        var r := [x] + ws;
        forall i, j | 0 <= i < j < |r| ensures LexLe(r[i], r[j]) {
          if i == 0 && j > 1 {
            LexLeTransitive(x, ws[0], ws[j - 1]);
          }
        }
      } else {
        var tail := ws[1..];
        InsertSorted(x, tail);
        var t := Insert(x, tail);
        var r := [ws[0]] + t;
        HeadBelowInserted(x, ws);
        forall i, j | 0 <= i < j < |r| ensures LexLe(r[i], r[j]) {
          if i > 0 {
            assert r[i] == t[i - 1] && r[j] == t[j - 1];
          }
        }
      }
    }
  }

  /** The head of a sorted list stays below everything once a larger string goes into its tail. */
  lemma HeadBelowInserted(x: string, ws: seq<string>)
    requires Sorted(ws) && |ws| > 0 && !LexLe(x, ws[0])
    ensures forall k :: 0 <= k < |Insert(x, ws[1..])| ==> LexLe(ws[0], Insert(x, ws[1..])[k])
  {
    LexLeTotal(x, ws[0]);
    var tail := ws[1..];
    var t := Insert(x, tail);
    forall k | 0 <= k < |t| ensures LexLe(ws[0], t[k]) {
      assert t[k] in multiset(t);
      if t[k] != x {
        assert t[k] in multiset(tail);
        var m :| 0 <= m < |tail| && tail[m] == t[k];
        assert ws[m + 1] == t[k];
      }
    }
  }

  /** `sorted` returns its argument in ascending order. */
  lemma {:induction false} SortSorted(ws: seq<string>)
    ensures Sorted(Sort(ws))
  {
    if |ws| > 0 {
      SortSorted(ws[1..]);
      InsertSorted(ws[0], Sort(ws[1..]));
    }
  }

  lemma {:induction false} InsertSumLen(x: string, ws: seq<string>)
    ensures SumLen(Insert(x, ws)) == |x| + SumLen(ws)
  {
    if |ws| == 0 {
      assert [x][..0] == [];
    } else if LexLe(x, ws[0]) {
      SumLenConcat([x], ws);
      assert [x][..0] == [];
    } else {
      InsertSumLen(x, ws[1..]);
      SumLenConcat([ws[0]], Insert(x, ws[1..]));
      SumLenConcat([ws[0]], ws[1..]);
      assert [ws[0]] + ws[1..] == ws;
      assert [ws[0]][..0] == [];
    }
  }

  /** Sorting keeps the total length of the strings. */
  lemma {:induction false} SortSumLen(ws: seq<string>)
    ensures SumLen(Sort(ws)) == SumLen(ws)
  {
    if |ws| > 0 {
      SortSumLen(ws[1..]);
      InsertSumLen(ws[0], Sort(ws[1..]));
      SumLenConcat([ws[0]], ws[1..]);
      assert [ws[0]] + ws[1..] == ws;
      assert [ws[0]][..0] == [];
    }
  }
}
