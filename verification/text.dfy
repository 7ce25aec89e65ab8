/** The few JavaScript string primitives the modelled code relies on, on
    strings of Unicode scalar values. */
module Text {

  /** The characters matched by `\s` in a JavaScript regular expression, which
      are also the ones `String.prototype.trim` removes (WhiteSpace and
      LineTerminator of ECMAScript). */
  predicate IsSpace(c: char) {
    if c < '\U{00A0}' then
      // tab, line feed, vertical tab, form feed, carriage return; space
      ('\t' <= c <= '\r') || c == ' '
    else
      || c == '\U{00A0}' || c == '\U{1680}' || ('\U{2000}' <= c <= '\U{200A}')
      || c == '\U{2028}' || c == '\U{2029}' || c == '\U{202F}' || c == '\U{205F}'
      || c == '\U{3000}' || c == '\U{FEFF}'
  }

  /** `\d` of a JavaScript regular expression without the `u` flag. */
  predicate IsDigit(c: char) {
    '0' <= c <= '9'
  }

  /** `s.startsWith(prefix)`. */
  predicate StartsWith(s: string, prefix: string) {
    prefix <= s
  }

  /** `s.includes(sub)`. */
  predicate Contains(s: string, sub: string)
    decreases |s|
  {
    StartsWith(s, sub) || (|s| > 0 && Contains(s[1..], sub))
  }

  /** `s.indexOf(c)` for a one-character string `c`: the first position of `c`, or -1. */
  function IndexOf(s: string, c: char): (i: int)
    ensures -1 <= i < |s|
    ensures i == -1 <==> c !in s
    ensures 0 <= i ==> s[i] == c && c !in s[..i]
  {
    if |s| == 0 then -1
    else if s[0] == c then 0
    else
      var j := IndexOf(s[1..], c);
      if j == -1 then -1
      else
        assert s[..j + 1] == [s[0]] + s[1..][..j];
        j + 1
  }

  /** `parts.join(sep)`. */
  function Join(parts: seq<string>, sep: string): string
  {
    if |parts| == 0 then ""
    else if |parts| == 1 then parts[0]
    else parts[0] + sep + Join(parts[1..], sep)
  }

  /** `s.split(sep)` for a one-character string `sep`: the pieces between the
      occurrences of `sep`, at least one, none containing `sep`, and joining
      them back with `sep` restores `s`. */
  function Split(s: string, sep: char): (parts: seq<string>)
    ensures |parts| >= 1
    ensures forall i :: 0 <= i < |parts| ==> sep !in parts[i]
    ensures Join(parts, [sep]) == s
    decreases |s|
  {
    var i := IndexOf(s, sep);
    if i < 0 then [s]
    else
      var rest := Split(s[i + 1..], sep);
      SplitStep(s, sep, i, rest);
      [s[..i]] + rest
  }

  /** The piece before the first separator, put in front of the pieces of
      the rest, splits `s`. */
  lemma SplitStep(s: string, sep: char, i: nat, rest: seq<string>)
    requires i < |s| && s[i] == sep && sep !in s[..i]
    requires |rest| >= 1 && Join(rest, [sep]) == s[i + 1..]
    requires forall k :: 0 <= k < |rest| ==> sep !in rest[k]
    ensures forall k :: 0 <= k < |[s[..i]] + rest| ==> sep !in ([s[..i]] + rest)[k]
    ensures Join([s[..i]] + rest, [sep]) == s
  {
    assert s == s[..i] + [sep] + s[i + 1..];
    JoinPrepend(s[..i], rest, [sep]);
  }

  /** Joining a piece in front of a non-empty list puts the separator between. */
  lemma JoinPrepend(a: string, rest: seq<string>, sep: string)
    requires |rest| > 0
    ensures Join([a] + rest, sep) == a + sep + Join(rest, sep)
  {
    assert ([a] + rest)[1..] == rest;
  }

  /** The pieces with `c` put in front of every piece but the first. */
  function Widen(parts: seq<string>, c: char): (r: seq<string>)
    ensures |r| == |parts|
    ensures forall i :: 0 <= i < |parts| ==> r[i] == if i == 0 then parts[i] else [c] + parts[i]
  {
    seq(|parts|, i requires 0 <= i < |parts| => if i == 0 then parts[i] else [c] + parts[i])
  }

  /** Joining with a two-character separator is joining the widened pieces
      with its first character. */
  lemma {:induction false} JoinWiden(parts: seq<string>, sep: char, c: char)
    ensures Join(parts, [sep, c]) == Join(Widen(parts, c), [sep])
    decreases |parts|
  {
    if |parts| > 1 {
      var rest := parts[1..];
      JoinWiden(rest, sep, c);
      var w := Widen(parts, c);
      var wr := Widen(rest, c);
      assert w[1..] == [[c] + rest[0]] + wr[1..];
      if |rest| > 1 {
        JoinPrepend(wr[0], wr[1..], [sep]);
        JoinPrepend([c] + rest[0], wr[1..], [sep]);
        assert wr == [wr[0]] + wr[1..];
      } else {
        assert wr[1..] == [];
      }
    }
  }

  /** Splitting a join of separator-free pieces gives the pieces back. */
  lemma {:induction false} SplitJoin(parts: seq<string>, sep: char)
    requires |parts| >= 1
    requires forall i :: 0 <= i < |parts| ==> sep !in parts[i]
    ensures Split(Join(parts, [sep]), sep) == parts
    decreases |parts|
  {
    if |parts| == 1 {
      assert IndexOf(parts[0], sep) == -1;
    } else {
      var s := Join(parts, [sep]);
      assert s == parts[0] + [sep] + Join(parts[1..], [sep]);
      var i := |parts[0]|;
      assert s[..i] == parts[0];
      assert s[i] == sep;
      assert sep !in s[..i];
      IndexOfFirst(s, sep, i);
      assert s[i + 1..] == Join(parts[1..], [sep]);
      SplitJoin(parts[1..], sep);
    }
  }

  /** Splitting a piece without the separator, the separator and a rest
      gives that piece followed by the split of the rest. */
  lemma SplitCons(x: string, sep: char, y: string)
    requires sep !in x
    ensures Split(x + [sep] + y, sep) == [x] + Split(y, sep)
  {
    var s := x + [sep] + y;
    assert s[..|x|] == x;
    IndexOfFirst(s, sep, |x|);
    assert s[|x| + 1..] == y;
  }

  /** When `c` sits at `i` and nowhere before, `IndexOf` finds it there. */
  lemma IndexOfFirst(s: string, c: char, i: nat)
    requires i < |s| && s[i] == c && c !in s[..i]
    ensures IndexOf(s, c) == i
  {
  }

  /** The length of the leading whitespace run of `s`. */
  function LeadCount(s: string): (n: nat)
    ensures n <= |s|
    ensures forall k :: 0 <= k < n ==> IsSpace(s[k])
    ensures n < |s| ==> !IsSpace(s[n])
  {
    if |s| > 0 && IsSpace(s[0]) then 1 + LeadCount(s[1..]) else 0
  }

  /** The length of the trailing whitespace run of `s`. */
  function TrailCount(s: string): (n: nat)
    ensures n <= |s|
    ensures forall k :: |s| - n <= k < |s| ==> IsSpace(s[k])
    ensures n < |s| ==> !IsSpace(s[|s| - n - 1])
  {
    if |s| > 0 && IsSpace(s[|s| - 1]) then 1 + TrailCount(s[..|s| - 1]) else 0
  }

  /** Drops the leading whitespace: the result is the longest suffix of `s`
      that does not start with a space. */
  function TrimStart(s: string): (r: string)
    ensures |r| <= |s| && r == s[|s| - |r|..]
    ensures r == [] || !IsSpace(r[0])
    ensures forall i :: 0 <= i < |s| - |r| ==> IsSpace(s[i])
  {
    s[LeadCount(s)..]
  }

  /** Drops the trailing whitespace: the result is the longest prefix of `s`
      that does not end with a space. */
  function TrimEnd(s: string): (r: string)
    ensures |r| <= |s| && r == s[..|r|]
    ensures r == [] || !IsSpace(r[|r| - 1])
    ensures forall i :: |r| <= i < |s| ==> IsSpace(s[i])
  {
    s[..|s| - TrailCount(s)]
  }

  /** Every character of `w` is whitespace. */
  predicate AllSpace(w: string) {
    forall k :: 0 <= k < |w| ==> IsSpace(w[k])
  }

  /** `r` is `s` trimmed: `s` is `r` with whitespace before it (exactly the
      run `TrimStart` drops) and whitespace after it, and `r` neither starts
      nor ends with whitespace, so no whitespace inside it is touched. */
  predicate TrimmedFrom(s: string, r: string) {
    var i := |s| - |TrimStart(s)|;
    && 0 <= i && i + |r| <= |s|
    && s[i..i + |r|] == r
    && AllSpace(s[..i])
    && AllSpace(s[i + |r|..])
    && (r == [] || (!IsSpace(r[0]) && !IsSpace(r[|r| - 1])))
  }

  /** `s.trim()`: the middle of `s` once whitespace is removed from both ends. */
  function Trim(s: string): (r: string)
    ensures |r| <= |s|
    ensures r == [] || (!IsSpace(r[0]) && !IsSpace(r[|r| - 1]))
    ensures TrimmedFrom(s, r)
  {
    TrimFacts(s);
    TrimEnd(TrimStart(s))
  }

  lemma TrimFacts(s: string)
    ensures TrimmedFrom(s, TrimEnd(TrimStart(s)))
  {
    TrimPlace(s);
    TrimTrailing(s);
    TrimLeading(s);
    TrimEnds(s);
  }

  /** The trimmed text sits right after the dropped leading run. */
  lemma TrimPlace(s: string)
    ensures var t := TrimStart(s); var r := TrimEnd(t); var i := |s| - |t|;
      i + |r| <= |s| && s[i..i + |r|] == r
  {
    var t := TrimStart(s);
    TrimInside(s, t, TrimEnd(t));
  }

  /** Only whitespace follows the trimmed text. */
  lemma TrimTrailing(s: string)
    ensures var t := TrimStart(s); var r := TrimEnd(t); var i := |s| - |t|;
      i + |r| <= |s| && AllSpace(s[i + |r|..])
  {
    var t := TrimStart(s);
    var r := TrimEnd(t);
    TrimInside(s, t, r);
    TrimEndTail(t);
    assert s[|s| - |t| + |r|..] == t[|r|..];
  }

  /** What `TrimEnd` drops is whitespace. */
  lemma TrimEndTail(t: string)
    ensures AllSpace(t[|TrimEnd(t)|..])
  {
    var r := TrimEnd(t);
    forall k | 0 <= k < |t| - |r|
      ensures IsSpace(t[|r|..][k])
    {
      assert t[|r|..][k] == t[|r| + k];
    }
  }

  /** Everything before the trimmed text is whitespace. */
  lemma TrimLeading(s: string)
    ensures AllSpace(s[..|s| - |TrimStart(s)|])
  {
  }

  /** The trimmed text neither starts nor ends with whitespace. */
  lemma TrimEnds(s: string)
    ensures var r := TrimEnd(TrimStart(s)); r == [] || (!IsSpace(r[0]) && !IsSpace(r[|r| - 1]))
  {
    var t := TrimStart(s);
    var r := TrimEnd(t);
    assert r != [] ==> r[0] == t[0];
  }

  /** Where the trimmed text sits in `s`: a suffix `t` of `s` cut down to a
      prefix `r` of it sits right after the part of `s` before `t`, and
      what follows it in `s` is what follows it in `t`. */
  lemma TrimInside(s: string, t: string, r: string)
    requires |t| <= |s| && t == s[|s| - |t|..]
    requires |r| <= |t| && r == t[..|r|]
    ensures var i := |s| - |t|;
      && i + |r| <= |s|
      && s[i..i + |r|] == r
      && s[i + |r|..] == t[|r|..]
  {
    var i := |s| - |t|;
    assert s[i..][..|r|] == s[i..i + |r|];
  }

  /** A string without whitespace at either end is its own trim. */
  lemma TrimNoEdgeSpace(s: string)
    requires s == [] || (!IsSpace(s[0]) && !IsSpace(s[|s| - 1]))
    ensures Trim(s) == s
  {
  }

  /** Trimming twice is trimming once. */
  lemma TrimIdempotent(s: string)
    ensures Trim(Trim(s)) == Trim(s)
  {
    TrimNoEdgeSpace(Trim(s));
  }

  /** A whitespace run in front of text that does not start with whitespace
      is exactly what `TrimStart` drops. */
  lemma TrimStartGap(w: string, x: string)
    requires AllSpace(w) && (x == [] || !IsSpace(x[0]))
    ensures TrimStart(w + x) == x
  {
    LeadCountGap(w, x);
    assert (w + x)[|w|..] == x;
  }

  lemma {:induction false} LeadCountGap(w: string, x: string)
    requires AllSpace(w) && (x == [] || !IsSpace(x[0]))
    ensures LeadCount(w + x) == |w|
    decreases |w|
  {
    if |w| > 0 {
      assert (w + x)[0] == w[0];
      assert (w + x)[1..] == w[1..] + x;
      LeadCountGap(w[1..], x);
    } else {
      assert w + x == x;
    }
  }

  /** A leading space makes no difference to the trim. */
  lemma TrimSpaceCons(x: string)
    ensures Trim([' '] + x) == Trim(x)
  {
    var s := [' '] + x;
    assert s[1..] == x;
    assert LeadCount(s) == 1 + LeadCount(x);
    assert TrimStart(s) == TrimStart(x);
  }

  /** What follows a prefix and one space, trimmed, is an already trimmed
      value. */
  lemma TrimAfterPrefix(p: string, v: string)
    requires Trim(v) == v
    ensures StartsWith(p + " " + v, p)
    ensures Trim((p + " " + v)[|p|..]) == v
  {
    AfterPrefix(p, v);
    TrimSpaceCons(v);
  }

  lemma AfterPrefix(p: string, v: string)
    ensures StartsWith(p + " " + v, p)
    ensures (p + " " + v)[|p|..] == [' '] + v
  {
    assert (p + " " + v)[..|p|] == p;
  }

  /** `s.toLowerCase()` restricted to ASCII letters. */
  function AsciiLower(s: string): (r: string)
    ensures |r| == |s|
    ensures forall i :: 0 <= i < |s| ==> r[i] == (if 'A' <= s[i] <= 'Z' then (s[i] as int + 32) as char else s[i])
  {
    if |s| == 0 then ""
    else [if 'A' <= s[0] <= 'Z' then (s[0] as int + 32) as char else s[0]] + AsciiLower(s[1..])
  }

  /** `pat` occurs in `s` at position `k`. */
  predicate OccursAt(s: string, pat: string, k: int) {
    0 <= k <= |s| && StartsWith(s[k..], pat)
  }

  /** `s.indexOf(pat)` for a string pattern: the first position where `pat`
      occurs, or -1 exactly when it occurs nowhere. */
  function IndexOfSub(s: string, pat: string): (i: int)
    ensures -1 <= i <= |s|
    ensures i == -1 <==> forall k :: 0 <= k <= |s| ==> !OccursAt(s, pat, k)
    ensures 0 <= i ==> OccursAt(s, pat, i) && forall k :: 0 <= k < i ==> !OccursAt(s, pat, k)
    decreases |s|
  {
    OccursAtStart(s, pat);
    if StartsWith(s, pat) then 0
    else if |s| == 0 then -1
    else
      var j := IndexOfSub(s[1..], pat);
      ShiftOccurs(s, pat);
      if j < 0 then -1
      else
        assert OccursAt(s, pat, j + 1);
        j + 1
  }

  /** An occurrence in the tail is an occurrence one place further on. */
  lemma ShiftOccurs(s: string, pat: string)
    requires |s| > 0
    ensures forall k :: 1 <= k <= |s| ==> (OccursAt(s, pat, k) <==> OccursAt(s[1..], pat, k - 1))
  {
    forall k | 1 <= k <= |s|
      ensures OccursAt(s, pat, k) <==> OccursAt(s[1..], pat, k - 1)
    {
      assert s[1..][k - 1..] == s[k..];
    }
  }

  /** An occurrence at 0 is a prefix. */
  lemma OccursAtStart(s: string, pat: string)
    ensures OccursAt(s, pat, 0) <==> StartsWith(s, pat)
  {
    assert s[0..] == s;
  }

  /** `s.replace(pat, rep)` with a string pattern: only the first occurrence is replaced. */
  function ReplaceFirst(s: string, pat: string, rep: string): string
  {
    var i := IndexOfSub(s, pat);
    if i < 0 then s else s[..i] + rep + s[i + |pat|..]
  }

  /** Removing a prefix the string starts with leaves the rest of the string. */
  lemma ReplaceLeadingPrefix(s: string, pat: string)
    requires StartsWith(s, pat)
    ensures ReplaceFirst(s, pat, "") == s[|pat|..]
  {
    OccursAtStart(s, pat);
  }
}
