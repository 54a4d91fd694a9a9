/** The string operations the source takes from its standard library, with the laws used here. */
module Text {
  import opened Options

  function IndexOf(s: string, c: char): (i: int)
    ensures -1 <= i < |s|
    ensures i >= 0 ==> s[i] == c && c !in s[..i]
    ensures i < 0 ==> c !in s
  {
    if s == "" then -1
    else if s[0] == c then 0
    else
      var k := IndexOf(s[1..], c);
      if k < 0 then -1 else assert s[..k + 1] == [s[0]] + s[1..][..k]; k + 1
  }

  lemma {:induction false} IndexOfFirst(a: string, c: char, b: string)
    requires c !in a
    ensures IndexOf(a + [c] + b, c) == |a|
  {
    if a != "" {
      IndexOfFirst(a[1..], c, b);
      assert (a + [c] + b)[1..] == a[1..] + [c] + b;
    }
  }

  function Split(s: string, c: char): (parts: seq<string>)
    ensures |parts| >= 1
    decreases |s|
  {
    var i := IndexOf(s, c);
    if i < 0 then [s] else [s[..i]] + Split(s[i + 1..], c)
  }

  function SplitN(s: string, c: char, n: nat): seq<string>
    requires n >= 1
    decreases n
  {
    var i := IndexOf(s, c);
    if n == 1 || i < 0 then [s] else [s[..i]] + SplitN(s[i + 1..], c, n - 1)
  }

  lemma SplitNStep(s: string, c: char, n: nat)
    requires n >= 2 && c in s
    ensures var i := IndexOf(s, c);
            0 <= i < |s| && SplitN(s, c, n) == [s[..i]] + SplitN(s[i + 1..], c, n - 1)
  {}

  lemma CutAt(s: string, i: nat)
    requires i < |s|
    ensures s == s[..i] + [s[i]] + s[i + 1..]
  {}

  function Join(parts: seq<string>, c: char): string
    requires parts != []
  {
    if |parts| == 1 then parts[0] else parts[0] + [c] + Join(parts[1..], c)
  }

  lemma SplitStep(a: string, c: char, b: string)
    requires c !in a
    ensures Split(a + [c] + b, c) == [a] + Split(b, c)
  {
    var s := a + [c] + b;
    IndexOfFirst(a, c, b);
    assert s[..|a|] == a && s[|a| + 1..] == b;
  }

  /** Splitting two texts joined by the separator splits each of them. */
  lemma {:induction false} SplitConcat(a: string, c: char, b: string)
    ensures Split(a + [c] + b, c) == Split(a, c) + Split(b, c)
    decreases |a|
  {
    var i := IndexOf(a, c);
    if i < 0 {
      SplitStep(a, c, b);
    } else {
      var head, rest := a[..i], a[i + 1..];
      CutAt(a, i);
      SplitConcat(rest, c, b);
      SplitBehind(head, c, rest, rest + [c] + b, Split(b, c));
      RegroupAt(head, c, rest, b);
    }
  }

  /** A part in front leaves the rest of a split alone. */
  lemma SplitBehind(head: string, c: char, rest: string, w: string, more: seq<string>)
    requires c !in head && Split(w, c) == Split(rest, c) + more
    ensures Split(head + [c] + w, c) == Split(head + [c] + rest, c) + more
  {
    SplitStep(head, c, w);
    SplitStep(head, c, rest);
  }

  lemma RegroupAt(head: string, c: char, rest: string, b: string)
    ensures head + [c] + (rest + [c] + b) == (head + [c] + rest) + [c] + b
  {}

  lemma {:induction false} SplitJoin(parts: seq<string>, c: char)
    requires parts != [] && forall i :: 0 <= i < |parts| ==> c !in parts[i]
    ensures Split(Join(parts, c), c) == parts
  {
    if |parts| == 1 {
      assert parts == [parts[0]];
    } else {
      SplitJoin(parts[1..], c);
      SplitStep(parts[0], c, Join(parts[1..], c));
    }
  }

  // ---------------------------------------------------------------------------
  // White space

  predicate IsSpace(c: char) {
    || '\t' <= c <= '\r' || c == ' ' || c == '\U{85}' || c == '\U{A0}' || c == '\U{1680}'
    || '\U{2000}' <= c <= '\U{200A}' || c == '\U{2028}' || c == '\U{2029}' || c == '\U{202F}'
    || c == '\U{205F}' || c == '\U{3000}'
  }

  predicate Trimmed(s: string) {
    s != "" ==> !IsSpace(s[0]) && !IsSpace(s[|s| - 1])
  }

  function TrimSpace(s: string): (r: string)
    ensures |r| <= |s| && Trimmed(r)
    ensures Trimmed(s) ==> r == s
    decreases |s|
  {
    if s == "" then ""
    else if IsSpace(s[0]) then TrimSpace(s[1..])
    else if IsSpace(s[|s| - 1]) then TrimSpace(s[..|s| - 1])
    else s
  }

  predicate AllSpaces(s: string) {
    forall i :: 0 <= i < |s| ==> IsSpace(s[i])
  }

  /** `s` is `m` between spaces. */
  ghost predicate Between(s: string, left: string, m: string, right: string) {
    s == left + m + right && AllSpaces(left) && AllSpaces(right)
  }

  lemma PrependSpace(s: string, left: string, m: string, right: string)
    requires s != "" && IsSpace(s[0]) && Between(s[1..], left, m, right)
    ensures Between(s, [s[0]] + left, m, right)
  {
    assert s == [s[0]] + s[1..];
    assert [s[0]] + (left + m + right) == ([s[0]] + left) + m + right;
  }

  lemma AppendSpace(s: string, left: string, m: string, right: string)
    requires s != "" && IsSpace(s[|s| - 1]) && Between(s[..|s| - 1], left, m, right)
    ensures Between(s, left, m, right + [s[|s| - 1]])
  {
    var c := s[|s| - 1];
    assert s == s[..|s| - 1] + [c];
    assert (left + m + right) + [c] == left + m + (right + [c]);
  }

  lemma NoSpace(s: string)
    ensures Between(s, "", s, "")
  {}

  /** Trimming takes spaces off both ends and nothing else. */
  lemma {:induction false} TrimParts(s: string) returns (left: string, right: string)
    ensures Between(s, left, TrimSpace(s), right)
    decreases |s|
  {
    if s != "" && IsSpace(s[0]) {
      left, right := TrimParts(s[1..]);
      PrependSpace(s, left, TrimSpace(s[1..]), right);
      left := [s[0]] + left;
    } else if s != "" && IsSpace(s[|s| - 1]) {
      left, right := TrimParts(s[..|s| - 1]);
      AppendSpace(s, left, TrimSpace(s[..|s| - 1]), right);
      right := right + [s[|s| - 1]];
    } else {
      left, right := "", "";
      NoSpace(s);
    }
  }

  lemma {:induction false} TrimLeft(left: string, s: string)
    requires AllSpaces(left)
    ensures TrimSpace(left + s) == TrimSpace(s)
  {
    if left == "" {
      assert left + s == s;
    } else {
      TrimLeft(left[1..], s);
      assert (left + s)[1..] == left[1..] + s;
    }
  }

  lemma {:induction false} TrimRight(s: string, right: string)
    requires AllSpaces(right) && s != "" && !IsSpace(s[0])
    ensures TrimSpace(s + right) == TrimSpace(s)
    decreases |right|
  {
    if right == "" {
      assert s + right == s;
    } else {
      TrimRight(s, right[..|right| - 1]);
      assert (s + right)[..|s + right| - 1] == s + right[..|right| - 1];
    }
  }

  // ---------------------------------------------------------------------------
  // Decimal integers

  const MAX_INT64: int := 0x7fff_ffff_ffff_ffff

  predicate IsInt64(n: int) {
    -MAX_INT64 - 1 <= n <= MAX_INT64
  }

  predicate IsDigit(c: char) {
    '0' <= c <= '9'
  }

  function Digit(d: nat): char
    requires d < 10
  {
    '0' + d as char
  }

  function Digits(n: nat): string {
    if n < 10 then [Digit(n)] else Digits(n / 10) + [Digit(n % 10)]
  }

  /** The "%d" form of an integer. */
  function Decimal(n: int): string {
    if n < 0 then "-" + Digits(-n) else Digits(n)
  }

  predicate AllDigits(s: string) {
    s != "" && forall i :: 0 <= i < |s| ==> IsDigit(s[i])
  }

  function Value(s: string): nat
    requires forall i :: 0 <= i < |s| ==> IsDigit(s[i])
  {
    if s == "" then 0
    else
      assert IsDigit(s[|s| - 1]);
      Value(s[..|s| - 1]) * 10 + (s[|s| - 1] - '0') as int
  }

  /** Base-10 ParseInt for 64 bits: one optional sign, digits only, and in range. */
  function ParseInt(s: string): Option<int> {
    if s == "" then None
    else
      var signed := s[0] == '-' || s[0] == '+';
      var ds := if signed then s[1..] else s;
      if !AllDigits(ds) then None
      else
        var n: int := if s[0] == '-' then 0 - Value(ds) else Value(ds);
        if IsInt64(n) then Some(n) else None
  }

  lemma {:induction false} DigitsValue(n: nat)
    ensures AllDigits(Digits(n)) && Value(Digits(n)) == n
  {
    if n >= 10 {
      DigitsValue(n / 10);
      var s := Digits(n);
      assert s[..|s| - 1] == Digits(n / 10);
    } else {
      assert Digits(n)[..0] == "";
    }
  }

  lemma DecimalParses(n: int)
    requires IsInt64(n)
    ensures ParseInt(Decimal(n)) == Some(n)
    ensures forall c :: c in Decimal(n) ==> c == '-' || IsDigit(c)
  {
    var ds := Digits(if n < 0 then -n else n);
    DigitsValue(if n < 0 then -n else n);
    assert IsDigit(ds[0]);
    if n < 0 { assert Decimal(n)[1..] == ds; }
  }
}
