/** The string operations of Go's standard library that the agent relies on. Strings are sequences of
    Unicode scalar values; byte order on UTF-8 and the order here agree. */
module GoText {

  // ---- Order ----

  /** `a < b` */
  predicate Less(a: string, b: string) {
    if b == "" then false
    else if a == "" then true
    else if a[0] != b[0] then a[0] < b[0]
    else Less(a[1..], b[1..])
  }

  lemma {:induction false} LessTransitive(a: string, b: string, c: string)
    requires Less(a, b) && Less(b, c)
    ensures Less(a, c)
  {
    if a != "" && a[0] == b[0] == c[0] {
      LessTransitive(a[1..], b[1..], c[1..]);
    }
  }

  lemma {:induction false} LessTotal(a: string, b: string)
    ensures (Less(a, b) && a != b && !Less(b, a)) || (Less(b, a) && a != b && !Less(a, b)) || (a == b && !Less(a, b))
  {
    if a != "" && b != "" && a[0] == b[0] {
      LessTotal(a[1..], b[1..]);
      assert a == [a[0]] + a[1..] && b == [b[0]] + b[1..];
    }
  }

  /** After k common characters `a` ends, or has the smaller character. */
  predicate BeforeAt(a: string, b: string, k: nat) {
    && k <= |a| && k < |b| && a[..k] == b[..k]
    && (k == |a| || a[k] < b[k])
  }

  lemma BeforeAtSameHead(a: string, b: string, k: nat)
    requires BeforeAt(a, b, k) && k > 0
    ensures a != "" && a[0] == b[0]
  {
    assert a[..k][0] == b[..k][0];
  }

  /** The order is the lexicographic one. */
  lemma {:induction false} LessIsLexicographic(a: string, b: string)
    ensures Less(a, b) <==> exists k: nat :: BeforeAt(a, b, k)
  {
    if a == "" || b == "" || a[0] != b[0] {
      assert b != "" && (a == "" || a[0] < b[0]) ==> BeforeAt(a, b, 0);
      forall k: nat | BeforeAt(a, b, k)
        ensures Less(a, b)
      {
        if k > 0 {
          BeforeAtSameHead(a, b, k);
        }
      }
    } else {
      LessIsLexicographic(a[1..], b[1..]);
      if k: nat :| BeforeAt(a[1..], b[1..], k) {
        assert a[..k + 1] == [a[0]] + a[1..][..k] && b[..k + 1] == [b[0]] + b[1..][..k];
        assert BeforeAt(a, b, k + 1);
      }
      if k: nat :| BeforeAt(a, b, k) {
        assert a[1..][..k - 1] == a[..k][1..] && b[1..][..k - 1] == b[..k][1..];
        assert BeforeAt(a[1..], b[1..], k - 1);
      }
    }
  }

  // ---- TrimSpace ----

  /** unicode.IsSpace */
  predicate IsSpace(c: char) {
    || '\t' <= c <= '\r' || c == ' ' || c == '\U{85}' || c == '\U{A0}' || c == '\U{1680}'
    || '\U{2000}' <= c <= '\U{200A}' || c == '\U{2028}' || c == '\U{2029}' || c == '\U{202F}'
    || c == '\U{205F}' || c == '\U{3000}'
  }

  function TrimLeft(s: string): (r: string)
    ensures |r| <= |s|
    ensures r == "" || !IsSpace(r[0])
  {
    if s != "" && IsSpace(s[0]) then TrimLeft(s[1..]) else s
  }

  function TrimRight(s: string): (r: string)
    ensures |r| <= |s|
    ensures r == "" || !IsSpace(r[|r| - 1])
    ensures r <= s
  {
    if s != "" && IsSpace(s[|s| - 1]) then TrimRight(s[..|s| - 1]) else s
  }

  function TrimSpace(s: string): string {
    TrimRight(TrimLeft(s))
  }

  /** Text that neither starts nor ends with white space is left alone. */
  predicate Trimmed(s: string) {
    s == "" || (!IsSpace(s[0]) && !IsSpace(s[|s| - 1]))
  }

  lemma TrimSpaceFixes(s: string)
    ensures Trimmed(TrimSpace(s))
    ensures TrimSpace(s) == s <==> Trimmed(s)
  {
  }

  predicate AllSpace(s: string) {
    forall i :: 0 <= i < |s| ==> IsSpace(s[i])
  }

  /** `t` is `s` from i to j, all around it is white space, and it has none at its ends. */
  predicate CoreAt(t: string, s: string, i: nat, j: nat) {
    i <= j <= |s| && t == s[i..j] && AllSpace(s[..i]) && AllSpace(s[j..]) && Trimmed(t)
  }

  lemma {:induction false} TrimLeftAt(s: string) returns (i: nat)
    ensures i <= |s| && TrimLeft(s) == s[i..] && AllSpace(s[..i])
  {
    i := 0;
    if s != "" && IsSpace(s[0]) {
      var k := TrimLeftAt(s[1..]);
      i := k + 1;
      assert s[..i] == [s[0]] + s[1..][..k];
    }
  }

  lemma {:induction false} TrimRightAt(s: string)
    ensures AllSpace(s[|TrimRight(s)|..])
  {
    if s != "" && IsSpace(s[|s| - 1]) {
      TrimRightAt(s[..|s| - 1]);
      var n := |TrimRight(s)|;
      assert s[n..] == s[..|s| - 1][n..] + [s[|s| - 1]];
    }
  }

  ghost predicate IsCore(t: string, s: string) {
    exists i: nat, j: nat :: CoreAt(t, s, i, j)
  }

  lemma SpaceAround(t: string, s: string, i: nat, j: nat)
    requires CoreAt(t, s, i, j)
    ensures forall m :: 0 <= m < i || j <= m < |s| ==> IsSpace(s[m])
    ensures t != "" ==> i < j && !IsSpace(s[i]) && !IsSpace(s[j - 1])
  {
    forall m | 0 <= m < i || j <= m < |s|
      ensures IsSpace(s[m])
    {
      if m < i {
        assert s[..i][m] == s[m];
      } else {
        assert s[j..][m - j] == s[m];
      }
    }
  }

  lemma CoreUnique(t: string, u: string, s: string, i: nat, j: nat, k: nat, l: nat)
    requires CoreAt(t, s, i, j) && CoreAt(u, s, k, l)
    ensures t == u
  {
    SpaceAround(t, s, i, j);
    SpaceAround(u, s, k, l);
  }

  /** TrimSpace takes the white space off both ends, and nothing else. */
  lemma TrimSpaceExactly(s: string, t: string)
    ensures t == TrimSpace(s) <==> IsCore(t, s)
  {
    var i := TrimLeftAt(s);
    TrimRightAt(s[i..]);
    TrimSpaceFixes(s);
    var j := i + |TrimSpace(s)|;
    assert s[j..] == s[i..][|TrimSpace(s)|..];
    assert CoreAt(TrimSpace(s), s, i, j);
    if k: nat, l: nat :| CoreAt(t, s, k, l) {
      CoreUnique(t, TrimSpace(s), s, k, l, i, j);
    }
  }

  /** White space around a trimmed text is trimmed away, and a text is trimmed to nothing exactly when it
      is all white space. */
  lemma TrimSpaceAround(w: string, t: string, v: string)
    requires AllSpace(w) && AllSpace(v) && Trimmed(t)
    ensures TrimSpace(w + t + v) == t
    ensures TrimSpace(w + t + v) == "" <==> AllSpace(w + t + v)
  {
    var s := w + t + v;
    assert s[..|w|] == w && s[|w|..|w| + |t|] == t && s[|w| + |t|..] == v;
    assert CoreAt(t, s, |w|, |w| + |t|);
    TrimSpaceExactly(s, t);
    assert t != "" ==> s[|w|] == t[0];
  }

  /** The code points that unicode.IsSpace accepts. */
  lemma WhiteSpaceIs(c: char)
    ensures IsSpace(c) <==>
      c as int in {9, 10, 11, 12, 13, 32, 133, 160, 5760, 8192, 8193, 8194, 8195, 8196, 8197, 8198, 8199, 8200, 8201, 8202, 8232, 8233, 8239, 8287, 12288}
  {
  }

  // ---- Decimal ----

  predicate IsDigit(c: char) {
    '0' <= c <= '9'
  }

  function Digit(n: nat): (c: char)
    requires n < 10
    ensures IsDigit(c) && (c as int - '0' as int) == n
  {
    '0' + n as char
  }

  function DecimalNat(n: nat): (s: string)
    ensures s != "" && forall i :: 0 <= i < |s| ==> IsDigit(s[i])
  {
    if n < 10 then [Digit(n)] else DecimalNat(n / 10) + [Digit(n % 10)]
  }

  /** %d */
  function Decimal(n: int): string {
    if n < 0 then "-" + DecimalNat(-n) else DecimalNat(n)
  }

  predicate AllDigits(s: string) {
    forall i :: 0 <= i < |s| ==> IsDigit(s[i])
  }

  function Value(digits: string): nat
    requires AllDigits(digits)
  {
    if digits == "" then 0
    else 10 * Value(digits[..|digits| - 1]) + (digits[|digits| - 1] as int - '0' as int)
  }

  lemma {:induction false} ValueOfDecimal(n: nat)
    ensures Value(DecimalNat(n)) == n
  {
    if n >= 10 {
      ValueOfDecimal(n / 10);
      assert DecimalNat(n)[..|DecimalNat(n)| - 1] == DecimalNat(n / 10);
    }
  }

  /** A sign for negative numbers only, then digits of that value without a leading zero. */
  lemma {:induction false} DecimalForm(n: int)
    ensures n < 0 ==> Decimal(n)[0] == '-' && Decimal(n)[1..] == Decimal(-n)
    ensures n >= 0 ==> AllDigits(Decimal(n)) && Value(Decimal(n)) == n && (n >= 10 ==> Decimal(n)[0] != '0') && (n < 10 ==> |Decimal(n)| == 1)
  {
    if n >= 0 {
      ValueOfDecimal(n);
    }
    if n >= 10 {
      DecimalForm(n / 10);
    }
  }

  lemma DecimalInjective(m: int, n: int)
    requires Decimal(m) == Decimal(n)
    ensures m == n
  {
    if m < 0 {
      assert Decimal(n)[0] == '-';
      assert Decimal(m)[1..] == DecimalNat(-m) && Decimal(n)[1..] == DecimalNat(-n);
      ValueOfDecimal(-m);
      ValueOfDecimal(-n);
    } else {
      assert Decimal(m)[0] != '-';
      ValueOfDecimal(m);
      ValueOfDecimal(n);
    }
  }
}
