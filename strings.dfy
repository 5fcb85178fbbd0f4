/**
  The JavaScript string and array built-ins the table tooling relies on:
  `startsWith`, `trim`, `split` and `join` on one separator character,
  `indexOf`, `parseInt` (restricted to plain decimal digits) and the decimal
  rendering of a number inside a template literal.
  Strings are sequences of characters.
 */
module Strings {
  import opened Wrappers

  /** `s.startsWith(p)` */
  predicate StartsWith(s: string, p: string) {
    |p| <= |s| && s[..|p|] == p
  }

  /** The characters `String.prototype.trim` removes: ECMAScript WhiteSpace and LineTerminator. */
  predicate IsJsSpace(c: char) {
    c == '\t' || c == '\n' || c == '\U{000B}' || c == '\U{000C}' || c == '\r' || c == ' ' ||
    c == '\U{00A0}' || c == '\U{1680}' || ('\U{2000}' <= c <= '\U{200A}') ||
    c == '\U{2028}' || c == '\U{2029}' || c == '\U{202F}' || c == '\U{205F}' ||
    c == '\U{3000}' || c == '\U{FEFF}'
  }

  function TrimStart(s: string): (r: string)
    ensures |r| <= |s|
    ensures r == [] || !IsJsSpace(r[0])
  {
    if s != [] && IsJsSpace(s[0]) then TrimStart(s[1..]) else s
  }

  function TrimEnd(s: string): (r: string)
    ensures |r| <= |s|
    ensures r == [] || !IsJsSpace(r[|r| - 1])
  {
    if s != [] && IsJsSpace(s[|s| - 1]) then TrimEnd(s[..|s| - 1]) else s
  }

  /** `s.trim()`: the longest slice of `s` that neither starts nor ends with white space. */
  function Trim(s: string): (r: string)
  {
    TrimEnd(TrimStart(s))
  }

  /** `TrimStart` removes a prefix. */
  lemma {:induction false} TrimStartIsSuffix(s: string)
    ensures TrimStart(s) == s[|s| - |TrimStart(s)|..]
  {
    if s != [] && IsJsSpace(s[0]) {
      TrimStartIsSuffix(s[1..]);
    }
  }

  /** A text that does not start with white space keeps its first character under `TrimEnd`. */
  lemma {:induction false} TrimEndKeepsFirst(s: string)
    requires s != [] && !IsJsSpace(s[0])
    ensures TrimEnd(s) != []
  {
    if |s| > 1 && IsJsSpace(s[|s| - 1]) {
      TrimEndKeepsFirst(s[..|s| - 1]);
    }
  }

  /** `TrimEnd` removes a suffix. */
  lemma {:induction false} TrimEndIsPrefix(s: string)
    ensures TrimEnd(s) == s[..|TrimEnd(s)|]
  {
    if s != [] && IsJsSpace(s[|s| - 1]) {
      TrimEndIsPrefix(s[..|s| - 1]);
    }
  }

  /** A trimmed text neither starts nor ends with white space. */
  lemma TrimHasNoOuterSpace(s: string)
    ensures Trim(s) == [] || (!IsJsSpace(Trim(s)[0]) && !IsJsSpace(Trim(s)[|Trim(s)| - 1]))
  {
    TrimEndIsPrefix(TrimStart(s));
  }

  /** Trimming twice is trimming once. */
  lemma TrimIdempotent(s: string)
    ensures Trim(Trim(s)) == Trim(s)
  {
    var a := TrimStart(s);
    var t := TrimEnd(a);
    TrimEndIsPrefix(a);
    if t != [] {
      assert t[0] == a[0];
    }
    assert TrimStart(t) == t;
  }

  /** `s.split(c)` for a one-character separator: the maximal pieces between occurrences of `c`. */
  function Split(s: string, c: char): (parts: seq<string>)
    ensures |parts| >= 1
    ensures forall i :: 0 <= i < |parts| ==> c !in parts[i]
    ensures |parts| == 1 <==> c !in s
  {
    if s == [] then [""]
    else
      var rest := Split(s[1..], c);
      if s[0] == c then [""] + rest
      else [[s[0]] + rest[0]] + rest[1..]
  }

  /** `parts.join(c)` */
  function Join(parts: seq<string>, c: char): string
  {
    if parts == [] then ""
    else if |parts| == 1 then parts[0]
    else parts[0] + [c] + Join(parts[1..], c)
  }

  lemma {:induction false} JoinCons(p: string, q: seq<string>, c: char)
    requires |q| >= 1
    ensures Join([p] + q, c) == p + [c] + Join(q, c)
  {
    assert ([p] + q)[1..] == q;
  }

  /** Splitting and joining on the same character gives back the text unchanged. */
  lemma {:induction false} JoinSplit(s: string, c: char)
    ensures Join(Split(s, c), c) == s
  {
    if s != [] {
      var rest := Split(s[1..], c);
      JoinSplit(s[1..], c);
      if s[0] == c {
        JoinCons("", rest, c);
        assert s == [c] + s[1..];
      } else {
        if |rest| == 1 {
          assert Split(s, c) == [[s[0]] + rest[0]];
        } else {
          assert Split(s, c) == [[s[0]] + rest[0]] + rest[1..];
          JoinCons(rest[0], rest[1..], c);
          JoinCons([s[0]] + rest[0], rest[1..], c);
          assert rest == [rest[0]] + rest[1..];
        }
        assert s == [s[0]] + s[1..];
      }
    }
  }

  /** A separator-free prefix glues onto the first piece of what follows it. */
  lemma {:induction false} SplitPrefix(a: string, t: string, c: char)
    requires c !in a
    ensures Split(a + t, c) == [a + Split(t, c)[0]] + Split(t, c)[1..]
  {
    if a != [] {
      SplitPrefix(a[1..], t, c);
      assert (a + t)[0] == a[0] && (a + t)[1..] == a[1..] + t;
      var rest := Split(a[1..] + t, c);
      assert Split(a + t, c) == [[a[0]] + rest[0]] + rest[1..];
      assert rest[0] == a[1..] + Split(t, c)[0];
      assert rest[1..] == Split(t, c)[1..];
      assert [a[0]] + (a[1..] + Split(t, c)[0]) == a + Split(t, c)[0];
    } else {
      assert a + t == t && a + Split(t, c)[0] == Split(t, c)[0];
    }
  }

  /** Joining separator-free pieces and splitting again gives back the pieces. */
  lemma {:induction false} SplitJoin(parts: seq<string>, c: char)
    requires |parts| >= 1
    requires forall i :: 0 <= i < |parts| ==> c !in parts[i]
    ensures Split(Join(parts, c), c) == parts
  {
    if |parts| == 1 {
      SplitPrefix(parts[0], "", c);
      assert parts[0] + "" == parts[0];
    } else {
      var tail := parts[1..];
      SplitJoin(tail, c);
      var j := Join(tail, c);
      assert Join(parts, c) == parts[0] + ([c] + j);
      SplitPrefix(parts[0], [c] + j, c);
      assert ([c] + j)[1..] == j;
      assert Split([c] + j, c) == [""] + Split(j, c);
      assert parts[0] + "" == parts[0];
      assert parts == [parts[0]] + tail;
    }
  }

  /** Splitting at one separator splits the two sides independently. */
  lemma {:induction false} SplitSeparated(x: string, y: string, c: char)
    ensures Split(x + [c] + y, c) == Split(x, c) + Split(y, c)
  {
    var s := x + [c] + y;
    if x == [] {
      assert s == [c] + y && s[1..] == y;
    } else {
      assert s[0] == x[0] && s[1..] == x[1..] + [c] + y;
      SplitSeparated(x[1..], y, c);
      if x[0] == c {
        SplitSeparatedAtSeparator(x, y, c);
      } else {
        SplitSeparatedInPart(x, y, c);
      }
    }
  }

  /** The step of `SplitSeparated` when `x` starts with the separator. */
  lemma SplitSeparatedAtSeparator(x: string, y: string, c: char)
    requires x != [] && x[0] == c
    requires Split(x[1..] + [c] + y, c) == Split(x[1..], c) + Split(y, c)
    ensures Split(x + [c] + y, c) == Split(x, c) + Split(y, c)
  {
    var s := x + [c] + y;
    assert s[0] == c && s[1..] == x[1..] + [c] + y;
    SplitUnfold(s, c);
    SplitUnfold(x, c);
    ConsAppend("", Split(x[1..], c), Split(y, c));
  }

  /** The step of `SplitSeparated` when `x` starts with another character. */
  lemma SplitSeparatedInPart(x: string, y: string, c: char)
    requires x != [] && x[0] != c
    requires Split(x[1..] + [c] + y, c) == Split(x[1..], c) + Split(y, c)
    ensures Split(x + [c] + y, c) == Split(x, c) + Split(y, c)
  {
    var s := x + [c] + y;
    assert s[0] == x[0] && s[1..] == x[1..] + [c] + y;
    SplitUnfold(s, c);
    SplitUnfold(x, c);
    var head := Split(x[1..], c);
    var tail := Split(y, c);
    HeadAppend(head, tail);
    ConsAppend([x[0]] + head[0], head[1..], tail);
  }

  /** One step of `Split`. */
  lemma SplitUnfold(s: string, c: char)
    requires s != []
    ensures s[0] == c ==> Split(s, c) == [""] + Split(s[1..], c)
    ensures s[0] != c ==> Split(s, c) == [[s[0]] + Split(s[1..], c)[0]] + Split(s[1..], c)[1..]
  {
  }

  lemma ConsAppend<T>(a: T, h: seq<T>, t: seq<T>)
    ensures [a] + (h + t) == ([a] + h) + t
  {
  }

  lemma HeadAppend<T>(h: seq<T>, t: seq<T>)
    requires |h| >= 1
    ensures (h + t)[0] == h[0] && (h + t)[1..] == h[1..] + t
  {
  }

  /** Joining two non-empty lists one after the other puts one separator between their joins. */
  lemma {:induction false} JoinAppend(p: seq<string>, q: seq<string>, c: char)
    requires |p| >= 1 && |q| >= 1
    ensures Join(p + q, c) == Join(p, c) + [c] + Join(q, c)
  {
    if |p| == 1 {
      assert p + q == [p[0]] + q;
      JoinCons(p[0], q, c);
    } else {
      JoinAppend(p[1..], q, c);
      assert p + q == [p[0]] + (p[1..] + q);
      JoinCons(p[0], p[1..] + q, c);
      JoinCons(p[0], p[1..], c);
      assert p == [p[0]] + p[1..];
    }
  }

  /** The pieces `t` read back after a join and a split: the same pieces when none holds the separator. */
  function Resplit(t: seq<string>, c: char): seq<string>
  {
    if t == [] then [] else Split(Join(t, c), c)
  }

  lemma ResplitSeparatorFree(t: seq<string>, c: char)
    requires forall i :: 0 <= i < |t| ==> c !in t[i]
    ensures Resplit(t, c) == t
  {
    if t != [] {
      SplitJoin(t, c);
    }
  }

  /**
    Joining `p`, `t` and `q` and splitting again gives back the separator-free
    outer pieces `p` and `q` unchanged around `t` read back.
   */
  lemma SplitJoinAround(p: seq<string>, t: seq<string>, q: seq<string>, c: char)
    requires |p| >= 1 && |q| >= 1
    requires forall i :: 0 <= i < |p| ==> c !in p[i]
    requires forall i :: 0 <= i < |q| ==> c !in q[i]
    ensures Split(Join(p + t + q, c), c) == p + Resplit(t, c) + q
  {
    SplitJoin(p, c);
    SplitJoin(q, c);
    if t == [] {
      assert p + t + q == p + q;
      JoinAppend(p, q, c);
      SplitSeparated(Join(p, c), Join(q, c), c);
    } else {
      JoinThree(p, t, q, c);
      SplitTwice(Join(p, c), Join(t, c), Join(q, c), c);
    }
  }

  lemma JoinThree(p: seq<string>, t: seq<string>, q: seq<string>, c: char)
    requires |p| >= 1 && |t| >= 1 && |q| >= 1
    ensures Join(p + t + q, c) == Join(p, c) + [c] + Join(t, c) + [c] + Join(q, c)
  {
    assert p + t + q == p + (t + q);
    JoinAppend(p, t + q, c);
    JoinAppend(t, q, c);
  }

  lemma SplitTwice(a: string, b: string, d: string, c: char)
    ensures Split(a + [c] + b + [c] + d, c) == Split(a, c) + Split(b, c) + Split(d, c)
  {
    assert a + [c] + b + [c] + d == a + [c] + (b + [c] + d);
    SplitSeparated(a, b + [c] + d, c);
    SplitSeparated(b, d, c);
  }

  /** `xs.indexOf(x)` / `xs.findIndex(...)`: the position of the first occurrence, `None` for -1. */
  function FirstIndexOf<T(==)>(xs: seq<T>, x: T): (r: Option<nat>)
    ensures r.None? <==> x !in xs
    ensures r.Some? ==> r.value < |xs| && xs[r.value] == x && x !in xs[..r.value]
  {
    if xs == [] then None
    else if xs[0] == x then Some(0)
    else
      match FirstIndexOf(xs[1..], x)
      case None => None
      case Some(i) =>
        assert xs[..i + 1] == [xs[0]] + xs[1..][..i];
        Some(i + 1)
  }

  /** Appending an element leaves the first occurrence of an element already present where it was. */
  lemma FirstIndexOfExtend<T>(xs: seq<T>, y: T, x: T)
    requires x in xs
    ensures FirstIndexOf(xs + [y], x) == FirstIndexOf(xs, x)
  {
    var p := FirstIndexOf(xs, x).value;
    assert (xs + [y])[p] == x;
  }

  /** An element first met at the end is found there. */
  lemma FirstIndexOfAppended<T>(xs: seq<T>, y: T)
    requires y !in xs
    ensures FirstIndexOf(xs + [y], y) == Some(|xs|)
  {
    assert (xs + [y])[|xs|] == y;
  }

  /** Taking one more element of a sequence appends that element. */
  lemma TakeSnoc<T>(s: seq<T>, i: nat)
    requires i < |s|
    ensures s[..i + 1] == s[..i] + [s[i]]
  {
  }

  /** Concatenation regroups: a whole that is the sum of two parts can replace them. */
  lemma AppendParts<T>(h: seq<T>, x: seq<T>, y: seq<T>, z: seq<T>)
    requires z == x + y
    ensures h + x + y == h + z
  {
  }

  predicate IsDigit(c: char) {
    '0' <= c <= '9'
  }

  predicate AllDigits(s: string) {
    forall i :: 0 <= i < |s| ==> IsDigit(s[i])
  }

  function DigitValue(c: char): nat
    requires IsDigit(c)
  {
    (c as int) - ('0' as int)
  }

  function DigitChar(d: nat): (c: char)
    requires d < 10
    ensures IsDigit(c) && DigitValue(c) == d
  {
    ('0' as int + d) as char
  }

  /** The value of a string of decimal digits, most significant first. */
  function DigitsValue(ds: string): nat
    requires AllDigits(ds)
  {
    if ds == [] then 0
    else DigitsValue(ds[..|ds| - 1]) * 10 + DigitValue(ds[|ds| - 1])
  }

  /** The maximal run of decimal digits at the start of `s`. */
  function LeadingDigits(s: string): (ds: string)
    ensures AllDigits(ds) && |ds| <= |s| && ds == s[..|ds|]
    ensures |ds| == |s| || !IsDigit(s[|ds|])
  {
    if s == [] || !IsDigit(s[0]) then []
    else [s[0]] + LeadingDigits(s[1..])
  }

  /** `parseInt(s)` for unsigned decimal text: the value of the leading digits, `None` for NaN. */
  function ParseLeadingInt(s: string): (r: Option<nat>)
    ensures r.Some? <==> (s != [] && IsDigit(s[0]))
  {
    var ds := LeadingDigits(s);
    if ds == [] then None else Some(DigitsValue(ds))
  }

  /** `${n}`: the decimal rendering of a natural number, without leading zeros. */
  function NatToString(n: nat): (s: string)
    ensures s != [] && AllDigits(s)
    ensures |s| > 1 ==> s[0] != '0'
  {
    if n < 10 then [DigitChar(n)]
    else NatToString(n / 10) + [DigitChar(n % 10)]
  }

  /** Reading back the decimal rendering of `n` gives `n`. */
  lemma {:induction false} NatToStringValue(n: nat)
    ensures DigitsValue(NatToString(n)) == n
  {
    if n >= 10 {
      NatToStringValue(n / 10);
      var s := NatToString(n);
      assert s[..|s| - 1] == NatToString(n / 10);
    }
  }

  lemma {:induction false} LeadingDigitsOf(ds: string, t: string)
    requires AllDigits(ds)
    requires t == [] || !IsDigit(t[0])
    ensures LeadingDigits(ds + t) == ds
  {
    if ds != [] {
      LeadingDigitsOf(ds[1..], t);
      assert (ds + t)[1..] == ds[1..] + t;
      assert ds == [ds[0]] + ds[1..];
    }
  }

  /** `parseInt` reads back any decimal rendering that is followed by a non-digit or by nothing. */
  lemma ParseNatToString(n: nat, t: string)
    requires t == [] || !IsDigit(t[0])
    ensures ParseLeadingInt(NatToString(n) + t) == Some(n)
  {
    LeadingDigitsOf(NatToString(n), t);
    NatToStringValue(n);
  }
}
