/** The JavaScript string primitives the forecast code relies on, stated on `seq<char>`:
    `split` on one character, `join`, `trim`, ASCII case mapping, substring search,
    decimal rendering of a natural number, and `filter(Boolean)` over strings. */
module Js {

  datatype Option<T> = None | Some(value: T)

  // ---------------------------------------------------------------------------
  // Counting and splitting

  /** Number of occurrences of `c` in `s`. */
  function Count(s: string, c: char): nat
  {
    if s == [] then 0 else (if s[0] == c then 1 else 0) + Count(s[1..], c)
  }

  lemma {:induction false} CountAppend(a: string, b: string, c: char)
    ensures Count(a + b, c) == Count(a, c) + Count(b, c)
  {
    if a == [] {
      assert a + b == b;
    } else {
      assert (a + b)[0] == a[0] && (a + b)[1..] == a[1..] + b;
      CountAppend(a[1..], b, c);
    }
  }

  lemma {:induction false} CountAbsent(s: string, c: char)
    requires c !in s
    ensures Count(s, c) == 0
  {
    if s != [] {
      assert c !in s[1..];
      CountAbsent(s[1..], c);
    }
  }

  // Small sequence identities, kept apart so that they are proved in a small context.

  lemma ThreeParts(s: string, i: nat, j: nat)
    requires i <= j <= |s|
    ensures s == s[..i] + s[i..j] + s[j..]
  {
    assert s[i..] == s[i..j] + s[j..];
    assert s == s[..i] + s[i..];
  }

  lemma AppendInit<T>(xs: seq<T>, ys: seq<T>)
    requires ys != []
    ensures (xs + ys)[..|xs + ys| - 1] == xs + ys[..|ys| - 1]
    ensures (xs + ys)[|xs + ys| - 1] == ys[|ys| - 1]
  {
    var zs := xs + ys;
    var init := zs[..|zs| - 1];
    var rhs := xs + ys[..|ys| - 1];
    forall k | 0 <= k < |init|
      ensures init[k] == rhs[k]
    {
      if k < |xs| {
        assert zs[k] == xs[k];
      } else {
        assert zs[k] == ys[k - |xs|];
      }
    }
  }

  lemma TwoParts(s: string, i: nat)
    requires i <= |s|
    ensures s == s[..i] + s[i..]
  {
  }

  lemma SnocLast(xs: seq<string>)
    requires xs != []
    ensures xs[..|xs| - 1] + [xs[|xs| - 1]] == xs
  {
  }

  /** `s.split(sep)` for a one-character separator: "" splits into [""]. */
  function Split(s: string, sep: char): (parts: seq<string>)
    ensures |parts| >= 1
  {
    if s == [] then [""]
    else
      var rest := Split(s[1..], sep);
      if s[0] == sep then [""] + rest
      else [[s[0]] + rest[0]] + rest[1..]
  }

  /** `parts.join(sep)`. */
  function Join(parts: seq<string>, sep: string): string
  {
    if |parts| == 0 then ""
    else if |parts| == 1 then parts[0]
    else parts[0] + sep + Join(parts[1..], sep)
  }

  /** `s.split(c).length` is one more than the number of separators. */
  lemma {:induction false} SplitLength(s: string, c: char)
    ensures |Split(s, c)| == Count(s, c) + 1
  {
    if s != [] {
      SplitLength(s[1..], c);
    }
  }

  /** No piece produced by `split(c)` contains `c`. */
  lemma {:induction false} SplitPiecesFree(s: string, c: char)
    ensures forall k :: 0 <= k < |Split(s, c)| ==> c !in Split(s, c)[k]
  {
    if s != [] {
      SplitPiecesFree(s[1..], c);
      var rest := Split(s[1..], c);
      if s[0] != c {
        assert c !in rest[0];
        assert c !in [s[0]] + rest[0];
      }
    }
  }

  /** Joining the pieces of a split with the separator gives the string back. */
  lemma {:induction false} JoinSplit(s: string, c: char)
    ensures Join(Split(s, c), [c]) == s
  {
    if s != [] {
      JoinSplit(s[1..], c);
      var rest := Split(s[1..], c);
      if s[0] == c {
        assert Join([""] + rest, [c]) == "" + [c] + Join(rest, [c]);
      } else if |rest| > 1 {
        var parts := [[s[0]] + rest[0]] + rest[1..];
        assert parts[1..] == rest[1..];
        assert Join(rest, [c]) == rest[0] + [c] + Join(rest[1..], [c]);
      }
    }
  }

  /** A string without the separator splits into itself. */
  lemma {:induction false} SplitNoSeparator(s: string, c: char)
    requires c !in s
    ensures Split(s, c) == [s]
  {
    if s != [] {
      assert c !in s[1..];
      SplitNoSeparator(s[1..], c);
      assert [s[0]] + s[1..] == s;
    }
  }

  lemma {:induction false} SplitAfterPiece(a: string, t: string, c: char)
    requires c !in a
    ensures Split(a + [c] + t, c) == [a] + Split(t, c)
  {
    if a == [] {
      assert a + [c] + t == [c] + t;
    } else {
      assert (a + [c] + t)[1..] == a[1..] + [c] + t;
      assert c !in a[1..];
      SplitAfterPiece(a[1..], t, c);
      assert [a[0]] + a[1..] == a;
    }
  }

  /** Splitting a join of separator-free pieces recovers the pieces. */
  lemma {:induction false} SplitJoin(parts: seq<string>, c: char)
    requires |parts| >= 1
    requires forall k :: 0 <= k < |parts| ==> c !in parts[k]
    ensures Split(Join(parts, [c]), c) == parts
  {
    if |parts| == 1 {
      SplitNoSeparator(parts[0], c);
    } else {
      SplitJoin(parts[1..], c);
      SplitAfterPiece(parts[0], Join(parts[1..], [c]), c);
    }
  }

  /** A join of pieces and a separator that all lack `c` lacks `c`. */
  lemma {:induction false} JoinAvoids(parts: seq<string>, sep: string, c: char)
    requires c !in sep
    requires forall k :: 0 <= k < |parts| ==> c !in parts[k]
    ensures c !in Join(parts, sep)
  {
    if |parts| > 1 {
      JoinAvoids(parts[1..], sep, c);
      var rest := Join(parts[1..], sep);
      assert forall x :: x in parts[0] + sep + rest ==> x in parts[0] || x in sep || x in rest;
    }
  }

  // ---------------------------------------------------------------------------
  // Whitespace and trim

  /** ECMAScript WhiteSpace and LineTerminator code points: what `trim` removes. */
  predicate IsSpace(ch: char)
  {
    ch == '\t' || ch == '\n' || ch == '\U{000B}' || ch == '\U{000C}' || ch == '\r' || ch == ' '
    || ch == '\U{00A0}' || ch == '\U{1680}' || ('\U{2000}' <= ch <= '\U{200A}')
    || ch == '\U{2028}' || ch == '\U{2029}' || ch == '\U{202F}' || ch == '\U{205F}'
    || ch == '\U{3000}' || ch == '\U{FEFF}'
  }

  predicate IsBlank(s: string)
  {
    forall i :: 0 <= i < |s| ==> IsSpace(s[i])
  }

  /** How many whitespace characters `s` starts with. */
  function LeadingSpaces(s: string): (n: nat)
    ensures n <= |s|
    ensures forall i :: 0 <= i < n ==> IsSpace(s[i])
    ensures n < |s| ==> !IsSpace(s[n])
  {
    if s != [] && IsSpace(s[0]) then 1 + LeadingSpaces(s[1..]) else 0
  }

  /** How many whitespace characters `s` ends with. */
  function TrailingSpaces(s: string): (n: nat)
    ensures n <= |s|
    ensures forall i :: |s| - n <= i < |s| ==> IsSpace(s[i])
    ensures n < |s| ==> !IsSpace(s[|s| - 1 - n])
  {
    if s != [] && IsSpace(s[|s| - 1]) then 1 + TrailingSpaces(s[..|s| - 1]) else 0
  }

  /** How many leading whitespace characters `trim` drops. */
  function TrimOffset(s: string): (a: nat)
    ensures a <= |s|
    ensures IsBlank(s[..a])
    ensures a < |s| ==> !IsSpace(s[a])
  {
    LeadingSpaces(s)
  }

  /** `s.trim()`: a substring of `s` with only whitespace cut off either side. */
  function Trim(s: string): (r: string)
    ensures TrimOffset(s) + |r| <= |s| && r == s[TrimOffset(s)..TrimOffset(s) + |r|]
    ensures IsBlank(s[..TrimOffset(s)]) && IsBlank(s[TrimOffset(s) + |r|..])
    ensures r == [] || (!IsSpace(r[0]) && !IsSpace(r[|r| - 1]))
  {
    var a := TrimOffset(s);
    var b := TrailingSpaces(s[a..]);
    TrailingBlank(s, a, b);
    s[a..|s| - b]
  }

  /** The trailing whitespace of a suffix, read back in the whole string. */
  lemma TrailingBlank(s: string, a: nat, b: nat)
    requires a <= |s| && b == TrailingSpaces(s[a..])
    ensures IsBlank(s[|s| - b..])
    ensures a + b < |s| ==> !IsSpace(s[|s| - 1 - b])
  {
    var t := s[a..];
    forall i | |s| - b <= i < |s|
      ensures IsSpace(s[i])
    {
      assert s[i] == t[i - a];
    }
    if a + b < |s| {
      assert s[|s| - 1 - b] == t[|t| - 1 - b];
    }
  }

  /** `trim` keeps every piece that starts and ends with a non-space character. */
  lemma TrimKeepsInner(a: string, m: string, b: string)
    requires m != [] && !IsSpace(m[0]) && !IsSpace(m[|m| - 1])
    ensures var r := Trim(a + m + b);
            TrimOffset(a + m + b) <= |a| && OccursAt(r, m, |a| - TrimOffset(a + m + b))
  {
    var s := a + m + b;
    MiddlePart(a, m, b);
    CutBeforeNonSpace(s, |a|);
    CutAfterNonSpace(s, |a| + |m| - 1);
    SliceOfSlice(s, TrimOffset(s), |Trim(s)|, |a|, |a| + |m|);
  }

  lemma MiddlePart(a: string, m: string, b: string)
    requires m != []
    ensures (a + m + b)[|a|..|a| + |m|] == m
    ensures (a + m + b)[|a|] == m[0] && (a + m + b)[|a| + |m| - 1] == m[|m| - 1]
  {
  }

  lemma SliceOfSlice(s: string, off: nat, len: nat, i: nat, j: nat)
    requires off <= i <= j <= off + len <= |s|
    ensures s[off..off + len][i - off..j - off] == s[i..j]
  {
    var r := s[off..off + len];
    forall k | 0 <= k < j - i
      ensures r[i - off..j - off][k] == s[i..j][k]
    {
      assert r[i - off..j - off][k] == r[i - off + k] == s[i + k];
    }
  }

  /** `trim` cuts nothing from the front past a non-space character. */
  lemma CutBeforeNonSpace(s: string, i: nat)
    requires i < |s| && !IsSpace(s[i])
    ensures TrimOffset(s) <= i
  {
  }

  /** `trim` cuts nothing from the back before a non-space character. */
  lemma CutAfterNonSpace(s: string, i: nat)
    requires i < |s| && !IsSpace(s[i])
    ensures i < TrimOffset(s) + |Trim(s)|
  {
  }

  /** Only an all-whitespace string trims to "". */
  lemma TrimEmptyIffBlank(s: string)
    ensures Trim(s) == [] <==> IsBlank(s)
  {
    var a := TrimOffset(s);
    if Trim(s) == [] {
      TwoParts(s, a);
      BlankConcat(s[..a], s[a..]);
    }
  }

  lemma BlankConcat(x: string, y: string)
    requires IsBlank(x) && IsBlank(y)
    ensures IsBlank(x + y)
  {
    forall i | 0 <= i < |x + y|
      ensures IsSpace((x + y)[i])
    {
      if i < |x| {
        assert (x + y)[i] == x[i];
      } else {
        assert (x + y)[i] == y[i - |x|];
      }
    }
  }

  /** A string that starts and ends with non-whitespace is its own trim. */
  lemma TrimNoEdgeSpace(s: string)
    requires s == [] || (!IsSpace(s[0]) && !IsSpace(s[|s| - 1]))
    ensures Trim(s) == s
  {
  }

  /** Trimming twice is trimming once. */
  lemma TrimIdempotent(s: string)
    ensures Trim(Trim(s)) == Trim(s)
  {
    TrimNoEdgeSpace(Trim(s));
  }

  /** A trimmed string keeps a non-whitespace first character. */
  lemma TrimKeepsFirst(s: string)
    requires s != [] && !IsSpace(s[0])
    ensures Trim(s) != [] && Trim(s)[0] == s[0]
  {
  }

  /** `.map(trim)`. */
  function TrimAll(parts: seq<string>): (r: seq<string>)
    ensures |r| == |parts|
    ensures forall k :: 0 <= k < |parts| ==> r[k] == Trim(parts[k])
  {
    if parts == [] then [] else [Trim(parts[0])] + TrimAll(parts[1..])
  }

  /** Trimming already-trimmed strings changes nothing. */
  lemma {:induction false} TrimAllIdentity(lines: seq<string>)
    requires forall k :: 0 <= k < |lines| ==> Trim(lines[k]) == lines[k]
    ensures TrimAll(lines) == lines
  {
    if lines != [] {
      TrimAllIdentity(lines[1..]);
    }
  }

  /** `.filter(Boolean)` and `.filter(line => line !== "")` on strings. */
  function NonEmpty(parts: seq<string>): (r: seq<string>)
    ensures |r| <= |parts|
    ensures forall k :: 0 <= k < |r| ==> r[k] != [] && r[k] in parts
  {
    if parts == [] then []
    else if parts[0] == [] then NonEmpty(parts[1..])
    else [parts[0]] + NonEmpty(parts[1..])
  }

  /** Filtering keeps every non-empty element, and nothing else. */
  lemma {:induction false} NonEmptyEmptyIff(parts: seq<string>)
    ensures NonEmpty(parts) == [] <==> forall k :: 0 <= k < |parts| ==> parts[k] == []
  {
    if parts != [] {
      NonEmptyEmptyIff(parts[1..]);
      assert forall k :: 1 <= k < |parts| ==> parts[k] == parts[1..][k - 1];
    }
  }

  /** Filtering a list whose elements are all non-empty changes nothing. */
  lemma {:induction false} NonEmptyIdentity(parts: seq<string>)
    requires forall k :: 0 <= k < |parts| ==> parts[k] != []
    ensures NonEmpty(parts) == parts
  {
    if parts != [] {
      NonEmptyIdentity(parts[1..]);
    }
  }

  /** `.split("\n").map(trim).filter(Boolean)`: the non-blank lines, trimmed. */
  function Lines(s: string): seq<string>
  {
    NonEmpty(TrimAll(Split(s, '\n')))
  }

  predicate AllBlank(parts: seq<string>)
  {
    forall k :: 0 <= k < |parts| ==> IsBlank(parts[k])
  }

  /** No line survives exactly when every line is blank. */
  lemma LinesEmptyIff(s: string)
    ensures Lines(s) == [] <==> AllBlank(Split(s, '\n'))
  {
    assert Lines(s) == NonEmpty(TrimAll(Split(s, '\n')));
    TrimmedAllEmptyIff(Split(s, '\n'));
  }

  lemma TrimmedAllEmptyIff(parts: seq<string>)
    ensures NonEmpty(TrimAll(parts)) == [] <==> AllBlank(parts)
  {
    var t := TrimAll(parts);
    NonEmptyEmptyIff(t);
    forall k | 0 <= k < |parts|
      ensures t[k] == [] <==> IsBlank(parts[k])
    {
      TrimEmptyIffBlank(parts[k]);
    }
  }

  // ---------------------------------------------------------------------------
  // Characters

  predicate IsDigit(ch: char) { '0' <= ch <= '9' }

  predicate AllDigits(s: string)
  {
    forall i :: 0 <= i < |s| ==> IsDigit(s[i])
  }

  /** `toLowerCase` on ASCII letters; every other character is left alone. */
  function LowerChar(ch: char): (r: char)
    ensures 'A' <= ch <= 'Z' ==> r as int == ch as int + 32
    ensures !('A' <= ch <= 'Z') ==> r == ch
  {
    if 'A' <= ch <= 'Z' then (ch as int + 32) as char else ch
  }

  /** `toUpperCase` on ASCII letters; every other character is left alone. */
  function UpperChar(ch: char): (r: char)
    ensures 'a' <= ch <= 'z' ==> r as int == ch as int - 32
    ensures !('a' <= ch <= 'z') ==> r == ch
  {
    if 'a' <= ch <= 'z' then (ch as int - 32) as char else ch
  }

  function Lower(s: string): (r: string)
    ensures |r| == |s| && forall i :: 0 <= i < |s| ==> r[i] == LowerChar(s[i])
  {
    if s == [] then [] else [LowerChar(s[0])] + Lower(s[1..])
  }

  function Upper(s: string): (r: string)
    ensures |r| == |s| && forall i :: 0 <= i < |s| ==> r[i] == UpperChar(s[i])
  {
    if s == [] then [] else [UpperChar(s[0])] + Upper(s[1..])
  }

  // ---------------------------------------------------------------------------
  // Substring search

  predicate OccursAt(s: string, pat: string, i: nat)
  {
    i + |pat| <= |s| && s[i..i + |pat|] == pat
  }

  /** `s.indexOf(pat, from)`, with `None` for -1: the first occurrence at or after `from`. */
  function IndexOf(s: string, pat: string, from: nat): (r: Option<nat>)
    ensures r.Some? ==> from <= r.value && OccursAt(s, pat, r.value)
    ensures r.Some? ==> forall j :: from <= j < r.value ==> !OccursAt(s, pat, j)
    ensures r.None? ==> forall j :: from <= j ==> !OccursAt(s, pat, j)
    decreases |s| - from
  {
    if from + |pat| > |s| then None
    else if OccursAt(s, pat, from) then Some(from)
    else IndexOf(s, pat, from + 1)
  }

  /** An occurrence with none before it, from `from` on, is the one `indexOf` finds. */
  lemma {:induction false} IndexOfFirst(s: string, pat: string, from: nat, i: nat)
    requires from <= i && OccursAt(s, pat, i)
    requires forall k :: from <= k < i ==> !OccursAt(s, pat, k)
    ensures IndexOf(s, pat, from) == Some(i)
    decreases i - from
  {
    if from < i {
      IndexOfFirst(s, pat, from + 1, i);
    }
  }

  // ---------------------------------------------------------------------------
  // Numbers

  function DigitChar(d: nat): char
    requires d < 10
  {
    ('0' as int + d) as char
  }

  /** `String(n)` for a natural number: its decimal digits, no leading zero. */
  function NatToString(n: nat): (r: string)
    ensures r != [] && AllDigits(r)
    ensures |r| > 1 ==> r[0] != '0'
  {
    if n < 10 then [DigitChar(n)] else NatToString(n / 10) + [DigitChar(n % 10)]
  }

  /** The value of a string of decimal digits. */
  function DigitsValue(s: string): nat
    requires AllDigits(s)
  {
    if s == [] then 0 else DigitsValue(s[..|s| - 1]) * 10 + (s[|s| - 1] as int - '0' as int)
  }

  /** Reading back the decimal rendering of `n` gives `n`. */
  lemma {:induction false} NatToStringRoundTrip(n: nat)
    ensures DigitsValue(NatToString(n)) == n
  {
    if n >= 10 {
      NatToStringRoundTrip(n / 10);
      var r := NatToString(n);
      assert r[..|r| - 1] == NatToString(n / 10);
    }
  }

  /** Distinct numbers render differently (so each "Item N" names one item). */
  lemma NatToStringInjective(m: nat, n: nat)
    requires NatToString(m) == NatToString(n)
    ensures m == n
  {
    NatToStringRoundTrip(m);
    NatToStringRoundTrip(n);
  }
}
