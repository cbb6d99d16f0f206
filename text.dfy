/** The pieces of Go's standard library that the program's core leans on:
    `%d` formatting, `strings.Split`, `strings.TrimSpace`, `strings.ToLower`,
    `strings.Replace(_, _, _, 1)`, `filepath.Ext`, `filepath.Join` and string `<`.
    Strings are sequences of characters; whitespace and case are ASCII only. */
module Text {

  // ---------------------------------------------------------------- decimal

  predicate IsDigit(c: char) { '0' <= c <= '9' }

  predicate AllDigits(s: string) { forall i :: 0 <= i < |s| ==> IsDigit(s[i]) }

  function DigitChar(d: nat): (c: char)
    requires d < 10
    ensures IsDigit(c) && c as int - '0' as int == d
  {
    ('0' as int + d) as char
  }

  /** `fmt.Sprintf("%d", n)` for a non-negative `n`: no sign, no leading zero. */
  function NatToString(n: nat): (s: string)
    ensures |s| >= 1 && AllDigits(s)
    ensures s == "0" <==> n == 0
    ensures s[0] != '0' || s == "0"
  {
    if n < 10 then [DigitChar(n)] else NatToString(n / 10) + [DigitChar(n % 10)]
  }

  /** The value of a string of decimal digits. */
  function ParseNat(s: string): nat
    requires AllDigits(s)
  {
    if s == [] then 0 else ParseNat(s[..|s| - 1]) * 10 + (s[|s| - 1] as int - '0' as int)
  }

  /** Decimal rendering loses nothing: parsing it gives the number back. */
  lemma {:induction false} ParseNatToString(n: nat)
    ensures ParseNat(NatToString(n)) == n
  {
    if n >= 10 {
      var s := NatToString(n);
      assert s[..|s| - 1] == NatToString(n / 10);
      ParseNatToString(n / 10);
    }
  }

  lemma NatToStringInjective(m: nat, n: nat)
    requires NatToString(m) == NatToString(n)
    ensures m == n
  {
    ParseNatToString(m);
    ParseNatToString(n);
  }

  // ---------------------------------------------------------------- characters

  /** The ASCII members of Go's `unicode.IsSpace`. */
  predicate IsSpace(c: char)
  {
    c == ' ' || c == '\t' || c == '\n' || c == '\r' || c == '\U{B}' || c == '\U{C}'
  }

  predicate IsUpper(c: char) { 'A' <= c <= 'Z' }

  function LowerChar(c: char): (d: char)
    ensures !IsUpper(d)
    ensures !IsUpper(c) ==> d == c
  {
    if IsUpper(c) then (c as int + 32) as char else c
  }

  /** `strings.ToLower`, ASCII letters only. */
  function Lower(s: string): (r: string)
    ensures |r| == |s|
    ensures forall i :: 0 <= i < |s| ==> r[i] == LowerChar(s[i])
  {
    if s == [] then [] else Lower(s[..|s| - 1]) + [LowerChar(s[|s| - 1])]
  }

  predicate IsLower(s: string) { forall i :: 0 <= i < |s| ==> !IsUpper(s[i]) }

  lemma LowerIsLower(s: string)
    ensures IsLower(Lower(s))
    ensures IsLower(s) ==> Lower(s) == s
  {
  }

  // ---------------------------------------------------------------- trimming

  function TrimLeft(s: string): (r: string)
    ensures |r| <= |s| && r == s[|s| - |r|..]
    ensures forall k :: 0 <= k < |s| - |r| ==> IsSpace(s[k])
    ensures r == [] || !IsSpace(r[0])
    ensures s == [] || !IsSpace(s[0]) ==> r == s
    ensures r == [] <==> forall i :: 0 <= i < |s| ==> IsSpace(s[i])
  {
    if s != [] && IsSpace(s[0]) then
      var r := TrimLeft(s[1..]);
      assert s[|s| - |r|..] == s[1..][|s| - 1 - |r|..];
      r
    else s
  }

  function TrimRight(s: string): (r: string)
    ensures |r| <= |s| && r == s[..|r|]
    ensures forall k :: |r| <= k < |s| ==> IsSpace(s[k])
    ensures r == [] || !IsSpace(r[|r| - 1])
    ensures s == [] || !IsSpace(s[|s| - 1]) ==> r == s
    ensures r == [] <==> forall i :: 0 <= i < |s| ==> IsSpace(s[i])
  {
    if s != [] && IsSpace(s[|s| - 1]) then
      var r := TrimRight(s[..|s| - 1]);
      assert s[..|r|] == s[..|s| - 1][..|r|];
      r
    else s
  }

  /** Neither end of `s` is whitespace. */
  predicate IsTrimmed(s: string)
  {
    s == [] || (!IsSpace(s[0]) && !IsSpace(s[|s| - 1]))
  }

  /** `strings.TrimSpace`: drops leading and trailing whitespace and keeps the
      middle untouched. */
  function TrimSpace(s: string): (r: string)
    ensures IsTrimmed(r)
    ensures r == [] <==> forall i :: 0 <= i < |s| ==> IsSpace(s[i])
    ensures IsTrimmed(s) ==> r == s
  {
    var l := TrimLeft(s);
    var r := TrimRight(l);
    assert r != [] ==> r[0] == l[0];
    r
  }

  /** Only white space lies outside `s[i..j]`. */
  predicate SpaceAround(s: string, i: int, j: int)
  {
    && 0 <= i <= j <= |s|
    && (forall k :: 0 <= k < i ==> IsSpace(s[k]))
    && (forall k :: j <= k < |s| ==> IsSpace(s[k]))
  }

  /** `TrimSpace` keeps a contiguous middle of its input and removes only
      white space around it. */
  lemma TrimSpaceKeepsMiddle(s: string)
    ensures exists i, j :: SpaceAround(s, i, j) && TrimSpace(s) == s[i..j]
  {
    var l := TrimLeft(s);
    var r := TrimRight(l);
    var i := |s| - |l|;
    var j := i + |r|;
    assert l == s[i..];
    assert r == l[..|r|];
    forall k | j <= k < |s|
      ensures IsSpace(s[k])
    {
      assert s[k] == l[k - i];
    }
    assert SpaceAround(s, i, j);
    assert TrimSpace(s) == s[i..j];
  }



  // ---------------------------------------------------------------- split / join

  /** `strings.Split(s, sep)` for a one-character separator: the pieces
      between separators, always at least one (`Split("", ",") == [""]`). */
  function Split(s: string, sep: char): (parts: seq<string>)
    ensures |parts| >= 1
    ensures forall k :: 0 <= k < |parts| ==> sep !in parts[k]
  {
    if s == [] then [[]]
    else
      var rest := Split(s[1..], sep);
      if s[0] == sep then [[]] + rest else [[s[0]] + rest[0]] + rest[1..]
  }

  /** `strings.Join(parts, sep)`. */
  function Join(parts: seq<string>, sep: char): string
    requires |parts| >= 1
  {
    if |parts| == 1 then parts[0] else parts[0] + [sep] + Join(parts[1..], sep)
  }

  /** Splitting and re-joining gives back the input. */
  lemma {:induction false} JoinSplit(s: string, sep: char)
    ensures Join(Split(s, sep), sep) == s
  {
    if s != [] {
      var rest := Split(s[1..], sep);
      JoinSplit(s[1..], sep);
      if s[0] == sep {
        assert Split(s, sep)[1..] == rest;
      } else {
        var parts := Split(s, sep);
        if |rest| > 1 {
          assert parts[1..] == rest[1..];
        }
      }
    }
  }

  /** Joining pieces free of the separator and splitting again gives back the
      pieces. */
  lemma {:induction false} SplitJoin(parts: seq<string>, sep: char)
    requires |parts| >= 1
    requires forall k :: 0 <= k < |parts| ==> sep !in parts[k]
    ensures Split(Join(parts, sep), sep) == parts
  {
    if |parts| == 1 {
      SplitNoSep(parts[0], sep);
    } else {
      SplitJoin(parts[1..], sep);
      SplitPrefix(parts[0], Join(parts[1..], sep), sep);
      assert Join(parts, sep) == parts[0] + ([sep] + Join(parts[1..], sep));
      assert [parts[0]] + parts[1..] == parts;
    }
  }

  lemma {:induction false} SplitNoSep(s: string, sep: char)
    requires sep !in s
    ensures Split(s, sep) == [s]
  {
    if s != [] {
      SplitNoSep(s[1..], sep);
      assert [s[0]] + s[1..] == s;
    }
  }

  /** A separator-free word in front of `sep + t` becomes the first piece. */
  lemma {:induction false} SplitPrefix(w: string, t: string, sep: char)
    requires sep !in w
    ensures Split(w + [sep] + t, sep) == [w] + Split(t, sep)
  {
    if w == [] {
      assert [sep] + t == w + [sep] + t;
      assert ([sep] + t)[1..] == t;
    } else {
      assert (w + [sep] + t)[1..] == w[1..] + [sep] + t;
      SplitPrefix(w[1..], t, sep);
      assert [w[0]] + w[1..] == w;
    }
  }

  // ---------------------------------------------------------------- replace

  /** `strings.Replace(s, [c], by, 1)`: the first `c`, if any, becomes `by`. */
  function ReplaceFirst(s: string, c: char, repl: string): (r: string)
    ensures c !in s ==> r == s
  {
    if s == [] then []
    else if s[0] == c then repl + s[1..]
    else [s[0]] + ReplaceFirst(s[1..], c, repl)
  }

  /** Only the first occurrence is replaced; everything around it is kept. */
  lemma {:induction false} ReplaceFirstSplits(a: string, c: char, b: string, repl: string)
    requires c !in a
    ensures ReplaceFirst(a + [c] + b, c, repl) == a + repl + b
  {
    if a != [] {
      assert (a + [c] + b)[1..] == a[1..] + [c] + b;
      ReplaceFirstSplits(a[1..], c, b, repl);
    }
  }

  // ---------------------------------------------------------------- paths

  /** What `filepath.Ext` can return: empty, or a dot followed by neither dot
      nor separator. */
  predicate IsExt(e: string)
  {
    e == [] || (e[0] == '.' && forall k :: 1 <= k < |e| ==> e[k] != '.' && e[k] != '/')
  }

  /** `filepath.Ext` (and `path.Ext`) on a '/'-separated path: the suffix from
      the last '.' of the final element, or empty. */
  function Ext(path: string): (r: string)
    ensures IsExt(r)
    ensures |r| <= |path| && r == path[|path| - |r|..]
  {
    ExtBeforeShape(path, |path|);
    ExtBefore(path, |path|)
  }

  /** The scan of `filepath.Ext`, looking at `path[i-1]` next. */
  function ExtBefore(path: string, i: nat): string
    requires i <= |path|
  {
    if i == 0 || path[i - 1] == '/' then ""
    else if path[i - 1] == '.' then path[i - 1..]
    else ExtBefore(path, i - 1)
  }

  lemma {:induction false} ExtBeforeShape(path: string, i: nat)
    requires i <= |path|
    requires forall k :: i <= k < |path| ==> path[k] != '.' && path[k] != '/'
    ensures IsExt(ExtBefore(path, i))
    ensures |ExtBefore(path, i)| <= |path|
    ensures ExtBefore(path, i) == path[|path| - |ExtBefore(path, i)|..]
    ensures ExtBefore(path, i) == [] ==>
      forall k :: 0 <= k < |path| && path[k] == '.' ==> '/' in path[k + 1..]
  {
    if i == 0 {
    } else if path[i - 1] == '/' {
      forall k | 0 <= k < |path| && path[k] == '.'
        ensures '/' in path[k + 1..]
      {
        assert path[k + 1..][i - 1 - (k + 1)] == '/';
      }
    } else if path[i - 1] == '.' {
    } else {
      ExtBeforeShape(path, i - 1);
    }
  }

  /** The extension is empty only when no '.' stands in the final path
      element. */
  lemma ExtShape(path: string)
    ensures Ext(path) == [] ==>
      forall k :: 0 <= k < |path| && path[k] == '.' ==> '/' in path[k + 1..]
  {
    ExtBeforeShape(path, |path|);
  }

  /** Appending a non-empty extension to anything makes it the extension. */
  lemma ExtOfSuffix(stem: string, e: string)
    requires IsExt(e) && e != []
    ensures Ext(stem + e) == e
  {
    var path := stem + e;
    var i := |path|;
    while i > |stem| + 1
      invariant |stem| + 1 <= i <= |path|
      invariant ExtBefore(path, i) == ExtBefore(path, |path|)
    {
      assert path[i - 1] == e[i - 1 - |stem|];
      i := i - 1;
    }
    assert path[|stem|..] == e;
  }

  /** `filepath.Join(dir, name)` for a name with no leading separator: the
      directory, one separator, then the name; the name alone under "". */
  function PathJoin(dir: string, name: string): (r: string)
    ensures |r| >= |name| && r[|r| - |name|..] == name
    ensures dir == [] ==> r == name
    ensures dir != [] ==> |r| == |dir| + 1 + |name| && r[..|dir|] == dir && r[|dir|] == '/'
  {
    if dir == [] then name else dir + "/" + name
  }

  lemma PathJoinInjective(dir: string, n1: string, n2: string)
    requires PathJoin(dir, n1) == PathJoin(dir, n2)
    ensures n1 == n2
  {
    if dir != [] {
      assert PathJoin(dir, n1)[|dir| + 1..] == n1;
      assert PathJoin(dir, n2)[|dir| + 1..] == n2;
    }
  }

  // ---------------------------------------------------------------- ordering

  /** Go's `a < b` on strings: lexicographic by character. */
  predicate StrLess(a: string, b: string)
  {
    if b == [] then false
    else if a == [] then true
    else if a[0] != b[0] then a[0] < b[0]
    else StrLess(a[1..], b[1..])
  }

  /** Position `k` is where `a` first falls below `b`: both agree before it,
      and there `a` has ended or holds the smaller character, while `b` has
      not ended. */
  predicate FirstDifference(a: string, b: string, k: int)
  {
    0 <= k <= |a| && k < |b| && a[..k] == b[..k] && (k == |a| || a[k] < b[k])
  }

  /** `StrLess` is the lexicographic order: `a` sorts first exactly when a
      first difference exists. */
  lemma StrLessFirstDifference(a: string, b: string)
    ensures StrLess(a, b) <==> exists k :: FirstDifference(a, b, k)
  {
    if StrLess(a, b) {
      var k := LessHasFirstDifference(a, b);
    } else {
      forall k | 0 <= k
        ensures !FirstDifference(a, b, k)
      {
        if FirstDifference(a, b, k) {
          FirstDifferenceIsLess(a, b, k);
        }
      }
    }
  }

  lemma {:induction false} LessHasFirstDifference(a: string, b: string) returns (k: nat)
    requires StrLess(a, b)
    ensures FirstDifference(a, b, k)
  {
    if a == [] || a[0] != b[0] {
      k := 0;
    } else {
      var j := LessHasFirstDifference(a[1..], b[1..]);
      k := j + 1;
      assert a[..k] == [a[0]] + a[1..][..j];
      assert b[..k] == [b[0]] + b[1..][..j];
    }
  }

  lemma {:induction false} FirstDifferenceIsLess(a: string, b: string, k: int)
    requires FirstDifference(a, b, k)
    ensures StrLess(a, b)
  {
    if k > 0 {
      assert a[0] == a[..k][0] == b[..k][0] == b[0];
      assert a[1..][..k - 1] == a[..k][1..];
      assert b[1..][..k - 1] == b[..k][1..];
      FirstDifferenceIsLess(a[1..], b[1..], k - 1);
    }
  }

  lemma {:induction false} StrLessIrreflexive(a: string)
    ensures !StrLess(a, a)
  {
    if a != [] {
      StrLessIrreflexive(a[1..]);
    }
  }

  lemma {:induction false} StrLessAsymmetric(a: string, b: string)
    ensures StrLess(a, b) ==> !StrLess(b, a)
  {
    if a != [] && b != [] && a[0] == b[0] {
      StrLessAsymmetric(a[1..], b[1..]);
    }
  }

  lemma {:induction false} StrLessTransitive(a: string, b: string, c: string)
    ensures StrLess(a, b) && StrLess(b, c) ==> StrLess(a, c)
  {
    if a != [] && b != [] && c != [] && a[0] == b[0] && b[0] == c[0] {
      StrLessTransitive(a[1..], b[1..], c[1..]);
    }
  }

  lemma {:induction false} StrLessTotal(a: string, b: string)
    ensures a == b || StrLess(a, b) || StrLess(b, a)
  {
    if a != [] && b != [] && a[0] == b[0] {
      StrLessTotal(a[1..], b[1..]);
      if a[1..] == b[1..] {
        assert a == [a[0]] + a[1..] && b == [b[0]] + b[1..];
      }
    }
  }

  // ---------------------------------------------------------------- counting

  /** How many times `c` occurs in `s`. */
  function CountChar(s: string, c: char): nat
  {
    if s == [] then 0 else CountChar(s[..|s| - 1], c) + (if s[|s| - 1] == c then 1 else 0)
  }

  lemma {:induction false} CountCharAppend(a: string, b: string, c: char)
    ensures CountChar(a + b, c) == CountChar(a, c) + CountChar(b, c)
  {
    if b == [] {
      assert a + b == a;
    } else {
      assert (a + b)[..|a + b| - 1] == a + b[..|b| - 1];
      CountCharAppend(a, b[..|b| - 1], c);
    }
  }

  lemma {:induction false} CountCharAbsent(s: string, c: char)
    requires c !in s
    ensures CountChar(s, c) == 0
  {
    if s != [] {
      CountCharAbsent(s[..|s| - 1], c);
    }
  }
}
