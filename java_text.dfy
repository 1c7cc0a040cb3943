/** Java text as the signer sees it: a `String` is a sequence of UTF-16 code
    units, ordered by `String.compareTo`, glued by `Collectors.joining`, and
    numbers are rendered by `Long.toString`. */
module JavaText {

  /** A possibly-absent value; `None` also stands for a Java `null`. */
  datatype Option<+T> = None | Some(value: T)

  /** One UTF-16 code unit (a Java `char`). */
  type JChar = c: int | 0 <= c < 0x10000

  /** A Java `String`: its UTF-16 code units, in order. */
  type JString = seq<JChar>

  predicate IsAscii(s: string) {
    forall i | 0 <= i < |s| :: (s[i] as int) < 0x80
  }

  /** The Java string written as the ASCII literal `s`. */
  function Lit(s: string): (r: JString)
    requires IsAscii(s)
    ensures |r| == |s|
    ensures forall i | 0 <= i < |s| :: r[i] == s[i] as int
  {
    seq(|s|, i requires 0 <= i < |s| => s[i] as int)
  }

  predicate IsHighSurrogate(c: int) { 0xD800 <= c < 0xDC00 }
  predicate IsLowSurrogate(c: int) { 0xDC00 <= c < 0xE000 }
  predicate IsSurrogate(c: int) { 0xD800 <= c < 0xE000 }

  /** Well-formed UTF-16: every high surrogate is followed by a low one and
      every low surrogate follows a high one. */
  predicate WellFormed(s: JString)
    decreases |s|
  {
    if s == [] then true
    else if IsHighSurrogate(s[0]) then |s| >= 2 && IsLowSurrogate(s[1]) && WellFormed(s[2..])
    else !IsLowSurrogate(s[0]) && WellFormed(s[1..])
  }

  /** A string without surrogates is well formed. */
  lemma {:induction false} NoSurrogatesWellFormed(s: JString)
    requires forall i | 0 <= i < |s| :: !IsSurrogate(s[i])
    ensures WellFormed(s)
    decreases |s|
  {
    if s != [] {
      NoSurrogatesWellFormed(s[1..]);
    }
  }

  /** `a.compareTo(b) < 0`: lexicographic order on code units, a proper
      prefix before its extensions. This is the order of a `TreeMap<String, _>`. */
  predicate Less(a: JString, b: JString)
    decreases |a|
  {
    if a == [] then b != []
    else if b == [] then false
    else if a[0] != b[0] then a[0] < b[0]
    else Less(a[1..], b[1..])
  }

  lemma {:induction false} LessIrreflexive(a: JString)
    ensures !Less(a, a)
    decreases |a|
  {
    if a != [] {
      LessIrreflexive(a[1..]);
    }
  }

  lemma {:induction false} LessTransitive(a: JString, b: JString, c: JString)
    requires Less(a, b) && Less(b, c)
    ensures Less(a, c)
    decreases |a|
  {
    if a != [] && b != [] && c != [] && a[0] == b[0] && b[0] == c[0] {
      LessTransitive(a[1..], b[1..], c[1..]);
    }
  }

  /** `compareTo` is total: two different strings are ordered one way. */
  lemma {:induction false} LessTotal(a: JString, b: JString)
    requires a != b
    ensures Less(a, b) || Less(b, a)
    decreases |a|
  {
    if a != [] && b != [] && a[0] == b[0] {
      assert a == [a[0]] + a[1..] && b == [b[0]] + b[1..];
      LessTotal(a[1..], b[1..]);
    }
  }

  lemma {:induction false} LessAsymmetric(a: JString, b: JString)
    requires Less(a, b)
    ensures !Less(b, a)
    decreases |a|
  {
    if a != [] && b != [] && a[0] == b[0] {
      LessAsymmetric(a[1..], b[1..]);
    }
  }

  /** `parts.stream().collect(Collectors.joining(sep))`. */
  function Join(sep: JString, parts: seq<JString>): JString
    decreases |parts|
  {
    if parts == [] then []
    else if |parts| == 1 then parts[0]
    else parts[0] + sep + Join(sep, parts[1..])
  }

  predicate Avoids(s: JString, c: JChar) {
    forall i | 0 <= i < |s| :: s[i] != c
  }

  /** Cutting at the first separator: two strings free of `c` followed by `c`
      agree exactly when the pieces do. */
  lemma CutAtSeparator(x: JString, y: JString, c: JChar, r1: JString, r2: JString)
    requires Avoids(x, c) && Avoids(y, c)
    requires x + [c] + r1 == y + [c] + r2
    ensures x == y && r1 == r2
  {
    var u, v := x + [c] + r1, y + [c] + r2;
    assert u[|x|] == c && v[|y|] == c;
    assert forall i | 0 <= i < |x| :: u[i] == x[i];
    assert forall i | 0 <= i < |y| :: v[i] == y[i];
    assert |x| == |y|;
    assert x == u[..|x|] && y == v[..|y|];
    assert r1 == u[|x| + 1..] && r2 == v[|y| + 1..];
  }

  /** With parts free of `c`, the joined string holds a `c` exactly when
      there are at least two parts. */
  lemma JoinAvoidsWhenSingle(c: JChar, xs: seq<JString>)
    requires xs != []
    requires forall i | 0 <= i < |xs| :: Avoids(xs[i], c)
    ensures Avoids(Join([c], xs), c) <==> |xs| == 1
  {
    if |xs| >= 2 {
      var j := Join([c], xs);
      assert j == xs[0] + [c] + Join([c], xs[1..]);
      assert j[|xs[0]|] == c;
    }
  }

  /** A joined list whose parts never contain the one-unit separator `c`
      determines its parts: joining is injective on non-empty lists. */
  lemma {:induction false} JoinInjective(c: JChar, xs: seq<JString>, ys: seq<JString>)
    requires xs != [] && ys != []
    requires forall i | 0 <= i < |xs| :: Avoids(xs[i], c)
    requires forall i | 0 <= i < |ys| :: Avoids(ys[i], c)
    requires Join([c], xs) == Join([c], ys)
    ensures xs == ys
    decreases |xs|
  {
    JoinAvoidsWhenSingle(c, xs);
    JoinAvoidsWhenSingle(c, ys);
    if |xs| >= 2 {
      CutAtSeparator(xs[0], ys[0], c, Join([c], xs[1..]), Join([c], ys[1..]));
      JoinInjective(c, xs[1..], ys[1..]);
      assert xs == [xs[0]] + xs[1..] && ys == [ys[0]] + ys[1..];
    }
  }

  /** Every unit of every part occurs in the joined string. */
  lemma {:induction false} JoinKeepsParts(sep: JString, parts: seq<JString>, i: nat, j: nat)
    requires i < |parts| && j < |parts[i]|
    ensures parts[i][j] in Join(sep, parts)
    decreases |parts|
  {
    if |parts| > 1 {
      var r := Join(sep, parts);
      assert r == parts[0] + sep + Join(sep, parts[1..]);
      if i == 0 {
        assert r[j] == parts[0][j];
      } else {
        JoinKeepsParts(sep, parts[1..], i - 1, j);
        var rest := Join(sep, parts[1..]);
        var k :| 0 <= k < |rest| && rest[k] == parts[i][j];
        assert r[|parts[0]| + |sep| + k] == rest[k];
      }
    }
  }

  predicate IsDigit(c: JChar) { 0x30 <= c <= 0x39 }

  /** `Long.toString(n)` for a non-negative `n`: decimal digits, no leading zero. */
  function Decimal(n: nat): (r: JString)
    ensures 1 <= |r|
    ensures forall i | 0 <= i < |r| :: IsDigit(r[i])
    ensures |r| > 1 ==> r[0] != 0x30
    decreases n
  {
    if n < 10 then [0x30 + n] else Decimal(n / 10) + [0x30 + n % 10]
  }

  /** The number a string of decimal digits denotes. */
  function DigitsValue(s: JString): int
    requires forall i | 0 <= i < |s| :: IsDigit(s[i])
    decreases |s|
  {
    if s == [] then 0 else 10 * DigitsValue(s[..|s| - 1]) + (s[|s| - 1] as int - 0x30)
  }

  /** Reading the rendering back gives the number: `Long.toString` loses nothing. */
  lemma {:induction false} DecimalValue(n: nat)
    ensures DigitsValue(Decimal(n)) == n
    decreases n
  {
    var r := Decimal(n);
    if n >= 10 {
      DecimalValue(n / 10);
      assert r[..|r| - 1] == Decimal(n / 10);
    }
  }
}
