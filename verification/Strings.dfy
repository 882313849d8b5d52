/** The few operations of Go's `strings` package that the modelled code calls, on ASCII text. */
module Strings {
  import opened Seqs

  predicate IsSpace(c: char) {
    c == ' ' || c == '\t' || c == '\n' || c == '\r' || c == '\U{000B}' || c == '\U{000C}'
  }

  /** The white space of ASCII, by its codes. */
  lemma SpaceExactly(c: char)
    ensures IsSpace(c) <==> c as int == 32 || 9 <= c as int <= 13
  {
    assert '\U{000B}' as int == 11 && '\U{000C}' as int == 12;
  }

  predicate Blank(s: string) {
    forall i :: 0 <= i < |s| ==> IsSpace(s[i])
  }

  predicate Lacks(s: string, c: char) {
    forall i :: 0 <= i < |s| ==> s[i] != c
  }

  // ---- trimming ----

  /** The first visible position at or after `i`, or the end. */
  function Lead(s: string, i: nat): (n: nat)
    requires i <= |s|
    ensures i <= n <= |s|
    ensures forall k :: i <= k < n ==> IsSpace(s[k])
    ensures n < |s| ==> !IsSpace(s[n])
    decreases |s| - i
  {
    if i < |s| && IsSpace(s[i]) then Lead(s, i + 1) else i
  }

  /** The end of the last visible position before `i`, or 0. */
  function Tail(s: string, i: nat): (n: nat)
    requires i <= |s|
    ensures n <= i
    ensures forall k :: n <= k < i ==> IsSpace(s[k])
    ensures n > 0 ==> !IsSpace(s[n - 1])
  {
    if i > 0 && IsSpace(s[i - 1]) then Tail(s, i - 1) else i
  }

  function TrimLeft(s: string): string {
    s[Lead(s, 0)..]
  }

  function TrimRight(s: string): string {
    s[..Tail(s, |s|)]
  }

  /** `strings.TrimSpace`. */
  function Trim(s: string): string {
    TrimRight(TrimLeft(s))
  }

  /** No white space at either end. */
  predicate Trimmed(s: string) {
    s == "" || (!IsSpace(s[0]) && !IsSpace(s[|s| - 1]))
  }

  lemma TrimIsTrimmed(s: string)
    ensures Trimmed(Trim(s))
    ensures |Trim(s)| <= |s|
  {
  }

  lemma TrimmedFixed(s: string)
    requires Trimmed(s)
    ensures TrimLeft(s) == TrimRight(s) == Trim(s) == s
  {
  }

  /** Blanks in front are skipped. */
  lemma TrimLeftPad(pad: string, s: string)
    requires Blank(pad)
    ensures TrimLeft(pad + s) == TrimLeft(s)
  {
    var n, m := Lead(pad + s, 0), Lead(s, 0);
    assert m < |s| ==> (pad + s)[|pad| + m] == s[m];
    assert |pad| <= n;
    assert forall k :: |pad| <= k < |pad + s| ==> (pad + s)[k] == s[k - |pad|];
    assert n == |pad| + m;
  }

  /** The end of the visible text is where only blanks follow and none precedes. */
  lemma TailIs(s: string, n: nat)
    requires n <= |s| && (n > 0 ==> !IsSpace(s[n - 1])) && forall k :: n <= k < |s| ==> IsSpace(s[k])
    ensures TrimRight(s) == s[..n]
  {
  }

  /** What ends in a visible character keeps all that stands before it. */
  lemma TrimRightKeeps(a: string, b: string)
    requires a == "" || !IsSpace(a[|a| - 1]) || TrimRight(b) != ""
    ensures TrimRight(a + b) == a + TrimRight(b)
  {
    var s, m := a + b, Tail(b, |b|);
    forall k | |a| + m <= k < |s| ensures IsSpace(s[k]) {
      assert s[k] == b[k - |a|];
    }
    TailIs(s, |a| + m);
    assert s[..|a| + m] == a + b[..m];
  }

  lemma TrimRightPad(s: string, pad: string)
    requires Blank(pad)
    ensures TrimRight(s + pad) == TrimRight(s)
  {
    var n, m := Tail(s + pad, |s + pad|), Tail(s, |s|);
    assert forall k :: 0 <= k < |s| ==> (s + pad)[k] == s[k];
    assert forall k :: |s| <= k < |s + pad| ==> IsSpace((s + pad)[k]);
    assert n == m;
  }

  lemma TrimAfterTrimRight(s: string)
    ensures Trim(TrimRight(s)) == Trim(s)
  {
    var t := TrimRight(s);
    var n, m := Lead(s, 0), Lead(t, 0);
    if n < |t| {
      assert m == n;
      TrimRightSuffix(s, n);
    } else {
      assert t == "" && TrimLeft(t) == "";
      assert Blank(s);
      assert n == |s|;
    }
  }

  lemma TrimRightSuffix(s: string, n: nat)
    requires n < |TrimRight(s)|
    ensures TrimRight(s[n..]) == TrimRight(s)[n..] == TrimRight(TrimRight(s)[n..])
  {
    var t := TrimRight(s);
    assert s[n..] == t[n..] + s[|t|..];
    TrimRightPad(t[n..], s[|t|..]);
    assert t[n..][|t[n..]| - 1] == t[|t| - 1];
  }

  /** Trimming takes off blanks at the two ends. */
  lemma TrimDecomposed(s: string) returns (left: string, right: string)
    ensures s == left + (Trim(s) + right) && Blank(left) && Blank(right)
  {
    var t := TrimLeft(s);
    left, right := s[..Lead(s, 0)], t[Tail(t, |t|)..];
    assert t == Trim(s) + right;
    assert s == left + t;
  }

  /** Trimming removes blank padding around a trimmed text, and nothing else. */
  lemma TrimPadded(left: string, s: string, right: string)
    requires Blank(left) && Blank(right) && Trimmed(s)
    ensures Trim(left + s + right) == s
  {
    assert left + s + right == left + (s + right);
    TrimLeftPad(left, s + right);
    if s == "" {
      assert s + right == right;
      assert Lead(right, 0) == |right|;
    } else {
      assert (s + right)[0] == s[0];
      assert TrimLeft(s + right) == s + right;
      TrimRightPad(s, right);
    }
    TrimmedFixed(s);
  }

  // ---- searching ----

  function FindFrom(s: string, c: char, i: nat): (n: nat)
    requires i <= |s|
    ensures i <= n <= |s|
    ensures forall k :: i <= k < n ==> s[k] != c
    ensures n < |s| ==> s[n] == c
    decreases |s| - i
  {
    if i < |s| && s[i] != c then FindFrom(s, c, i + 1) else i
  }

  /** Position of the first `c`, or the length when there is none. */
  function Find(s: string, c: char): (n: nat)
    ensures n <= |s|
    ensures forall k :: 0 <= k < n ==> s[k] != c
    ensures n < |s| ==> s[n] == c
  {
    FindFrom(s, c, 0)
  }

  lemma FindIn(a: string, c: char, b: string)
    requires Lacks(a, c)
    ensures Find(a + [c] + b, c) == |a|
  {
    var s := a + [c] + b;
    assert s[|a|] == c;
    assert forall k :: 0 <= k < |a| ==> s[k] == a[k];
  }

  predicate HasPrefix(s: string, prefix: string) {
    |prefix| <= |s| && s[..|prefix|] == prefix
  }

  function IndexFrom(s: string, sub: string, i: nat): (r: int)
    requires i <= |s|
    ensures r == -1 || (i <= r && r + |sub| <= |s|)
    decreases |s| - i
  {
    if HasPrefix(s[i..], sub) then i
    else if i == |s| then -1
    else IndexFrom(s, sub, i + 1)
  }

  /** `strings.Index`: the least position where `sub` occurs, or -1. */
  function Index(s: string, sub: string): (r: int)
    ensures r == -1 || (0 <= r && r + |sub| <= |s|)
  {
    IndexFrom(s, sub, 0)
  }

  /** `r` is the first position from `i` on where `sub` occurs, or -1. */
  ghost predicate FirstAt(s: string, sub: string, i: nat, r: int)
    requires r <= |s|
  {
    && (r >= 0 ==> HasPrefix(s[r..], sub))
    && forall k :: i <= k <= |s| && (r < 0 || k < r) ==> !HasPrefix(s[k..], sub)
  }

  lemma {:induction false} IndexFromFirst(s: string, sub: string, i: nat)
    requires i <= |s|
    ensures FirstAt(s, sub, i, IndexFrom(s, sub, i))
    decreases |s| - i
  {
    if !HasPrefix(s[i..], sub) && i < |s| {
      IndexFromFirst(s, sub, i + 1);
    }
  }

  lemma IndexFirst(s: string, sub: string)
    ensures FirstAt(s, sub, 0, Index(s, sub))
  {
    IndexFromFirst(s, sub, 0);
  }

  // ---- splitting ----

  /** `strings.Split` on a one-character separator. */
  function Split(s: string, sep: char): (parts: seq<string>)
    ensures parts != []
  {
    var i := Find(s, sep);
    if i == |s| then [s] else [s[..i]] + Split(s[i + 1..], sep)
  }

  /** `strings.Join` with a one-character separator. */
  function Join(parts: seq<string>, sep: char): string {
    if parts == [] then ""
    else if |parts| == 1 then parts[0]
    else parts[0] + [sep] + Join(parts[1..], sep)
  }

  lemma SplitLacking(s: string, sep: char)
    requires Lacks(s, sep)
    ensures Split(s, sep) == [s]
  {
  }

  lemma SplitHead(first: string, sep: char, rest: string)
    requires Lacks(first, sep)
    ensures Split(first + [sep] + rest, sep) == [first] + Split(rest, sep)
  {
    var s := first + [sep] + rest;
    FindIn(first, sep, rest);
    assert s[..|first|] == first && s[|first| + 1..] == rest;
  }

  /** Taking off the first piece commutes with adding one at the end. */
  lemma CutFirst(a: string, sep: char, b: string) returns (first: string, rest: string)
    requires !Lacks(a, sep)
    ensures Lacks(first, sep) && |rest| < |a|
    ensures a == first + [sep] + rest
    ensures a + [sep] + b == first + [sep] + (rest + [sep] + b)
  {
    var i := Find(a, sep);
    first, rest := a[..i], a[i + 1..];
    Associates(first + [sep], rest, [sep]);
    Associates(first + [sep], rest + [sep], b);
  }

  lemma {:induction false} SplitConcat(a: string, sep: char, b: string)
    ensures Split(a + [sep] + b, sep) == Split(a, sep) + Split(b, sep)
    decreases |a|
  {
    if Lacks(a, sep) {
      SplitHead(a, sep, b);
      SplitLacking(a, sep);
    } else {
      var first, rest := CutFirst(a, sep, b);
      SplitHead(first, sep, rest);
      SplitHead(first, sep, rest + [sep] + b);
      SplitConcat(rest, sep, b);
      Associates([first], Split(rest, sep), Split(b, sep));
    }
  }

  /** Splitting a join gives the parts back, provided no part holds the separator. */
  lemma {:induction false} SplitJoin(parts: seq<string>, sep: char)
    requires parts != [] && forall i :: 0 <= i < |parts| ==> Lacks(parts[i], sep)
    ensures Split(Join(parts, sep), sep) == parts
  {
    if |parts| > 1 {
      SplitJoin(parts[1..], sep);
      SplitHead(parts[0], sep, Join(parts[1..], sep));
    } else {
      SplitLacking(parts[0], sep);
    }
  }

  // ---- case ----

  function LowerChar(c: char): char {
    if 'A' <= c <= 'Z' then (c as int + 32) as char else c
  }

  lemma LowerCase(c: char)
    ensures 'a' <= c <= 'z' <==> c in "abcdefghijklmnopqrstuvwxyz"
  {
    if 'a' <= c <= 'z' {
      assert "abcdefghijklmnopqrstuvwxyz"[c as int - 97] == c;
    }
  }

  lemma UpperCase(c: char)
    ensures 'A' <= c <= 'Z' <==> c in "ABCDEFGHIJKLMNOPQRSTUVWXYZ"
  {
    if 'A' <= c <= 'Z' {
      assert "ABCDEFGHIJKLMNOPQRSTUVWXYZ"[c as int - 65] == c;
    }
  }

  lemma Numeral(c: char)
    ensures '0' <= c <= '9' <==> c in "0123456789"
  {
    if '0' <= c <= '9' {
      assert "0123456789"[c as int - 48] == c;
    }
  }

  /** The alphabet in both cases; every other character stays. */
  lemma LowerExactly(c: char)
    ensures var upper, lower := "ABCDEFGHIJKLMNOPQRSTUVWXYZ", "abcdefghijklmnopqrstuvwxyz";
            && (forall i :: 0 <= i < 26 ==> LowerChar(upper[i]) == lower[i])
            && (c !in upper ==> LowerChar(c) == c)
  {
    var upper := "ABCDEFGHIJKLMNOPQRSTUVWXYZ";
    if 'A' <= c <= 'Z' {
      assert upper[c as int - 65] == c;
    }
  }

  /** `strings.ToLower`. */
  function ToLower(s: string): (r: string)
    ensures |r| == |s|
    ensures forall i :: 0 <= i < |s| ==> r[i] == LowerChar(s[i])
  {
    seq(|s|, i requires 0 <= i < |s| => LowerChar(s[i]))
  }
}
