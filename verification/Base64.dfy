/** The base64url helpers of the two WebAuthn modules (section 5 of RFC 4648) on top of the browser's
    btoa and atob (section 4 of RFC 4648, with the forgiving decoding of the Infra Standard). */
module Base64 {
  import opened Options
  import opened Bytes

  type Sextet = n: int | 0 <= n < 64

  // ---- Alphabets ----

  function StdChar(n: Sextet): char {
    if n < 26 then 'A' + n as char
    else if n < 52 then 'a' + (n - 26) as char
    else if n < 62 then '0' + (n - 52) as char
    else if n == 62 then '+' else '/'
  }

  function UrlChar(n: Sextet): char {
    if n == 62 then '-' else if n == 63 then '_' else StdChar(n)
  }

  function StdValue(c: char): Option<Sextet> {
    if 'A' <= c <= 'Z' then Some(c as int - 'A' as int)
    else if 'a' <= c <= 'z' then Some(c as int - 'a' as int + 26)
    else if '0' <= c <= '9' then Some(c as int - '0' as int + 52)
    else if c == '+' then Some(62)
    else if c == '/' then Some(63)
    else None
  }

  function StdText(x: seq<Sextet>): (s: string)
    ensures |s| == |x| && forall i :: 0 <= i < |x| ==> s[i] == StdChar(x[i])
  {
    if x == [] then "" else [StdChar(x[0])] + StdText(x[1..])
  }

  function UrlText(x: seq<Sextet>): (s: string)
    ensures |s| == |x| && forall i :: 0 <= i < |x| ==> s[i] == UrlChar(x[i])
  {
    if x == [] then "" else [UrlChar(x[0])] + UrlText(x[1..])
  }

  /** The sextets of a text, unless a character is outside the alphabet. */
  function Values(s: string): (r: Option<seq<Sextet>>)
    ensures r.Some? ==> |r.value| == |s|
  {
    if s == "" then Some([])
    else
      match (StdValue(s[0]), Values(s[1..]))
      case (Some(v), Some(vs)) => Some([v] + vs)
      case _ => None
  }

  // ---- Sextets and bytes ----

  /** Three bytes are four sextets; one or two bytes at the end are two or three. */
  function Sextets(b: seq<Byte>): seq<Sextet> {
    if b == [] then []
    else if |b| == 1 then [b[0] / 4, b[0] % 4 * 16]
    else if |b| == 2 then [b[0] / 4, b[0] % 4 * 16 + b[1] / 16, b[1] % 16 * 4]
    else [b[0] / 4, b[0] % 4 * 16 + b[1] / 16, b[1] % 16 * 4 + b[2] / 64, b[2] % 64] + Sextets(b[3..])
  }

  function FirstByte(a: Sextet, b: Sextet): Byte {
    var n: int := a;
    n * 4 + b / 16
  }

  function SecondByte(b: Sextet, c: Sextet): Byte {
    var n: int := b;
    n % 16 * 16 + c / 4
  }

  function ThirdByte(c: Sextet, d: Sextet): Byte {
    var n: int := c;
    n % 4 * 64 + d
  }

  /** The bytes of the sextets; the bits that are left over are dropped. */
  function FromSextets(x: seq<Sextet>): seq<Byte> {
    if |x| < 2 then []
    else if |x| == 2 then [FirstByte(x[0], x[1])]
    else if |x| == 3 then [FirstByte(x[0], x[1]), SecondByte(x[1], x[2])]
    else [FirstByte(x[0], x[1]), SecondByte(x[1], x[2]), ThirdByte(x[2], x[3])] + FromSextets(x[4..])
  }

  // ---- btoa and atob ----

  function Padding(n: nat): string {
    if n % 4 == 2 then "==" else if n % 4 == 3 then "=" else ""
  }

  /** A binary string: one character for each byte. */
  function Binary(b: seq<Byte>): (s: string)
    ensures |s| == |b| && forall i :: 0 <= i < |b| ==> s[i] as int == b[i]
  {
    if b == [] then "" else [b[0] as char] + Binary(b[1..])
  }

  /** The code of every character, unless one does not fit a byte. */
  function CharCodes(s: string): Option<seq<Byte>> {
    if s == "" then Some([])
    else if s[0] as int >= 256 then None
    else
      match CharCodes(s[1..])
      case None => None
      case Some(rest) => Some([s[0] as int] + rest)
  }

  /** btoa throws on a character above 255. */
  function Btoa(binary: string): Option<string> {
    match CharCodes(binary)
    case None => None
    case Some(b) => Some(StdText(Sextets(b)) + Padding(|Sextets(b)|))
  }

  predicate AsciiWhitespace(c: char) {
    c == '\t' || c == '\n' || c == '\U{C}' || c == '\r' || c == ' '
  }

  function StripWhitespace(s: string): string {
    if s == "" then ""
    else (if AsciiWhitespace(s[0]) then "" else [s[0]]) + StripWhitespace(s[1..])
  }

  /** A text whose length is a multiple of four loses one or two '=' at its end. */
  function DropPadding(s: string): string {
    if |s| % 4 == 0 && |s| > 0 && s[|s| - 1] == '=' then
      (if s[|s| - 2] == '=' then s[..|s| - 2] else s[..|s| - 1])
    else s
  }

  /** atob, or None where it throws. */
  function Atob(text: string): Option<string> {
    var s := DropPadding(StripWhitespace(text));
    if |s| % 4 == 1 then None
    else
      match Values(s)
      case None => None
      case Some(x) => Some(Binary(FromSextets(x)))
  }

  // ---- The helpers ----

  /** value.replace(/-/g, "+").replace(/_/g, "/") */
  function ToStd(s: string): (r: string)
    ensures |r| == |s|
  {
    if s == "" then "" else [if s[0] == '-' then '+' else if s[0] == '_' then '/' else s[0]] + ToStd(s[1..])
  }

  /** .replace(/\+/g, "-").replace(/\//g, "_") */
  function ToUrl(s: string): (r: string)
    ensures |r| == |s|
  {
    if s == "" then "" else [if s[0] == '+' then '-' else if s[0] == '/' then '_' else s[0]] + ToUrl(s[1..])
  }

  /** .replace(/=+$/g, "") */
  function StripPadding(s: string): (r: string)
    ensures r <= s && (r == "" || r[|r| - 1] != '=')
    ensures forall i :: |r| <= i < |s| ==> s[i] == '='
  {
    if s != "" && s[|s| - 1] == '=' then StripPadding(s[..|s| - 1]) else s
  }

  function Repeat(c: char, n: nat): (s: string)
    ensures |s| == n && forall i :: 0 <= i < n ==> s[i] == c
  {
    if n == 0 then "" else [c] + Repeat(c, n - 1)
  }

  /** "=".repeat((4 - (length % 4 || 4)) % 4) */
  function PadFor(length: nat): string {
    Repeat('=', (4 - (if length % 4 == 0 then 4 else length % 4)) % 4)
  }

  /** base64urlToBase64, on the server */
  function Base64urlToBase64(value: string): string {
    var padded := ToStd(value);
    padded + PadFor(|padded|)
  }

  /** base64ToBytes, on the server: None where atob throws */
  function Base64ToBytes(value: string): Option<seq<Byte>> {
    match Atob(value)
    case None => None
    case Some(binary) => CharCodes(binary)
  }

  /** base64urlToBytes, in the browser */
  function Base64urlToBytes(value: string): Option<seq<Byte>> {
    var base64 := ToStd(value);
    Base64ToBytes(base64 + PadFor(|base64|))
  }

  /** What bytesToBase64url computes (section 5 of RFC 4648, without padding). */
  function Base64url(b: seq<Byte>): string {
    UrlText(Sextets(b))
  }

  /** What bytesToBase64 computes (section 4 of RFC 4648). */
  function Base64(b: seq<Byte>): string {
    StdText(Sextets(b)) + Padding(|Sextets(b)|)
  }

  // ---- Proofs about the pieces ----

  lemma {:induction false} CharCodesBinary(b: seq<Byte>)
    ensures CharCodes(Binary(b)) == Some(b)
  {
    if b != [] {
      CharCodesBinary(b[1..]);
      assert Binary(b)[1..] == Binary(b[1..]);
      assert [b[0]] + b[1..] == b;
    }
  }

  lemma FirstByteBack(p: Byte, q: Byte)
    ensures FirstByte(p / 4, p % 4 * 16 + q / 16) == p
  {
    assert (p % 4 * 16 + q / 16) / 16 == p % 4;
  }

  lemma SecondByteBack(p: Byte, q: Byte, r: Byte)
    ensures SecondByte(p % 4 * 16 + q / 16, q % 16 * 4 + r / 64) == q
  {
    assert (p % 4 * 16 + q / 16) % 16 == q / 16;
    assert (q % 16 * 4 + r / 64) / 4 == q % 16;
  }

  lemma ThirdByteBack(q: Byte, r: Byte)
    ensures ThirdByte(q % 16 * 4 + r / 64, r % 64) == r
  {
    assert (q % 16 * 4 + r / 64) % 4 == r / 64;
  }

  lemma {:induction false} FromSextetsSextets(b: seq<Byte>)
    ensures FromSextets(Sextets(b)) == b
    ensures |Sextets(b)| % 4 != 1
  {
    hide FirstByte, SecondByte, ThirdByte;
    if |b| == 1 {
      FirstByteBack(b[0], 0);
    } else if |b| == 2 {
      FirstByteBack(b[0], b[1]);
      SecondByteBack(b[0], b[1], 0);
    } else if |b| >= 3 {
      FirstByteBack(b[0], b[1]);
      SecondByteBack(b[0], b[1], b[2]);
      ThirdByteBack(b[1], b[2]);
      FromSextetsSextets(b[3..]);
      assert Sextets(b)[4..] == Sextets(b[3..]);
      assert b == [b[0], b[1], b[2]] + b[3..];
    }
  }

  /** The bits beyond the last byte are zero. */
  predicate ZeroTail(x: seq<Sextet>) {
    && (|x| % 4 == 2 ==> x[|x| - 1] % 16 == 0)
    && (|x| % 4 == 3 ==> x[|x| - 1] % 4 == 0)
  }

  lemma FirstByteParts(a: Sextet, b: Sextet)
    ensures FirstByte(a, b) / 4 == a && FirstByte(a, b) % 4 == b / 16
  {
  }

  lemma SecondByteParts(b: Sextet, c: Sextet)
    ensures SecondByte(b, c) / 16 == b % 16 && SecondByte(b, c) % 16 == c / 4
  {
  }

  lemma ThirdByteParts(c: Sextet, d: Sextet)
    ensures ThirdByte(c, d) / 64 == c % 4 && ThirdByte(c, d) % 64 == d
  {
  }

  lemma GroupOfFour(a: Sextet, b: Sextet, c: Sextet, d: Sextet)
    ensures Sextets([FirstByte(a, b), SecondByte(b, c), ThirdByte(c, d)]) == [a, b, c, d]
  {
    hide FirstByte, SecondByte, ThirdByte;
    FirstByteParts(a, b);
    SecondByteParts(b, c);
    ThirdByteParts(c, d);
    assert [FirstByte(a, b), SecondByte(b, c), ThirdByte(c, d)][3..] == [];
  }

  lemma GroupOfThree(a: Sextet, b: Sextet, c: Sextet)
    ensures Sextets([FirstByte(a, b), SecondByte(b, c)]) == [a, b, c / 4 * 4]
  {
    hide FirstByte, SecondByte;
    FirstByteParts(a, b);
    SecondByteParts(b, c);
  }

  lemma GroupOfTwo(a: Sextet, b: Sextet)
    ensures Sextets([FirstByte(a, b)]) == [a, b / 16 * 16]
  {
    hide FirstByte;
    FirstByteParts(a, b);
  }

  lemma SextetsSplit(p: Byte, q: Byte, r: Byte, rest: seq<Byte>)
    ensures Sextets([p, q, r] + rest) == Sextets([p, q, r]) + Sextets(rest)
  {
    assert ([p, q, r] + rest)[3..] == rest && [p, q, r][3..] == [];
  }

  /** What survives a round trip: all but the unused bits of the last sextet. */
  function CutTail(x: seq<Sextet>): seq<Sextet>
    requires |x| % 4 != 1
  {
    if |x| % 4 == 2 then x[..|x| - 1] + [x[|x| - 1] / 16 * 16]
    else if |x| % 4 == 3 then x[..|x| - 1] + [x[|x| - 1] / 4 * 4]
    else x
  }

  lemma CutTailSplit(x: seq<Sextet>)
    requires |x| >= 4 && |x| % 4 != 1
    ensures CutTail(x) == x[..4] + CutTail(x[4..])
  {
  }

  lemma CutTailFixes(x: seq<Sextet>)
    requires |x| % 4 != 1
    ensures CutTail(x) == x <==> ZeroTail(x)
    ensures |CutTail(x)| == |x|
  {
    if |x| % 4 >= 2 {
      assert x == x[..|x| - 1] + [x[|x| - 1]];
      assert CutTail(x)[|x| - 1] == if |x| % 4 == 2 then x[|x| - 1] / 16 * 16 else x[|x| - 1] / 4 * 4;
    }
  }

  lemma {:induction false} SextetsFromSextets(x: seq<Sextet>)
    requires |x| % 4 != 1
    ensures Sextets(FromSextets(x)) == CutTail(x)
  {
    hide FirstByte, SecondByte, ThirdByte;
    if |x| == 2 {
      GroupOfTwo(x[0], x[1]);
    } else if |x| == 3 {
      GroupOfThree(x[0], x[1], x[2]);
    } else if |x| >= 4 {
      SextetsFromSextets(x[4..]);
      GroupOfFour(x[0], x[1], x[2], x[3]);
      SextetsSplit(FirstByte(x[0], x[1]), SecondByte(x[1], x[2]), ThirdByte(x[2], x[3]), FromSextets(x[4..]));
      CutTailSplit(x);
      assert x[..4] == [x[0], x[1], x[2], x[3]];
    }
  }

  lemma {:induction false} ValuesStdText(x: seq<Sextet>)
    ensures Values(StdText(x)) == Some(x)
  {
    if x != [] {
      ValuesStdText(x[1..]);
      assert StdText(x)[1..] == StdText(x[1..]);
      assert [x[0]] + x[1..] == x;
    }
  }

  lemma {:induction false} StripWhitespaceNone(s: string)
    requires forall i :: 0 <= i < |s| ==> !AsciiWhitespace(s[i])
    ensures StripWhitespace(s) == s
  {
    if s != "" {
      StripWhitespaceNone(s[1..]);
    }
  }

  lemma {:induction false} ToStdUrlText(x: seq<Sextet>)
    ensures ToStd(UrlText(x)) == StdText(x)
  {
    if x != [] {
      ToStdUrlText(x[1..]);
      assert UrlText(x)[1..] == UrlText(x[1..]);
    }
  }

  lemma {:induction false} ToUrlStdText(x: seq<Sextet>)
    ensures ToUrl(StdText(x)) == UrlText(x)
  {
    if x != [] {
      ToUrlStdText(x[1..]);
      assert StdText(x)[1..] == StdText(x[1..]);
    }
  }

  /** The replacements change the two characters wherever they stand, and no other. */
  lemma {:induction false} ReplacedEach(s: string, i: nat)
    requires i < |s|
    ensures ToStd(s)[i] == if s[i] == '-' then '+' else if s[i] == '_' then '/' else s[i]
    ensures ToUrl(s)[i] == if s[i] == '+' then '-' else if s[i] == '/' then '_' else s[i]
  {
    if i > 0 {
      ReplacedEach(s[1..], i - 1);
    }
  }

  lemma ToUrlConcat(s: string, t: string)
    ensures ToUrl(s + t) == ToUrl(s) + ToUrl(t)
  {
    hide ToUrl, ToStd;
    forall i | 0 <= i < |s + t|
      ensures ToUrl(s + t)[i] == (ToUrl(s) + ToUrl(t))[i]
    {
      ReplacedEach(s + t, i);
      if i < |s| {
        ReplacedEach(s, i);
      } else {
        ReplacedEach(t, i - |s|);
      }
    }
  }

  lemma ToUrlPadding(n: nat)
    ensures ToUrl(Padding(n)) == Padding(n)
  {
    assert ToUrl("=") == "=";
    assert ToUrl("==") == "==" by {
      assert "==" == "=" + "=";
      ToUrlConcat("=", "=");
    }
  }

  /** No character of an encoding is white space or '='. */
  lemma StdTextPlain(x: seq<Sextet>)
    ensures forall i :: 0 <= i < |x| ==> !AsciiWhitespace(StdText(x)[i]) && StdText(x)[i] != '='
  {
    forall i | 0 <= i < |x|
      ensures !AsciiWhitespace(StdText(x)[i]) && StdText(x)[i] != '='
    {
      StdCharPlain(x[i]);
    }
  }

  lemma StdCharPlain(n: Sextet)
    ensures !AsciiWhitespace(StdChar(n)) && StdChar(n) != '='
  {
  }

  lemma DropPaddingExact(s: string)
    requires forall i :: 0 <= i < |s| ==> s[i] != '='
    ensures |s| % 4 != 1 ==> DropPadding(s + Padding(|s|)) == s
    ensures |s| % 4 == 1 ==> DropPadding(s + "===") == s + "="
  {
    if |s| % 4 == 2 {
      assert (s + "==")[..|s|] == s;
    } else if |s| % 4 == 3 {
      assert (s + "=")[..|s|] == s;
    } else if |s| % 4 == 1 {
      assert (s + "===")[..|s| + 1] == s + "=";
    } else {
      assert s + "" == s;
    }
  }

  lemma {:induction false} ValuesRejects(s: string, i: nat)
    requires i < |s| && StdValue(s[i]) == None
    ensures Values(s) == None
  {
    if i > 0 {
      ValuesRejects(s[1..], i - 1);
    }
  }

  lemma PaddingIsPadFor(n: nat)
    requires n % 4 != 1
    ensures Padding(n) == PadFor(n)
  {
    if n % 4 == 2 {
      assert PadFor(n) == "==";
    } else if n % 4 == 3 {
      assert PadFor(n) == "=";
    }
  }

  lemma StripOne(s: string)
    ensures StripPadding(s + "=") == StripPadding(s)
  {
    assert (s + "=")[..|s|] == s;
  }

  lemma StripPaddingExact(x: seq<Sextet>, pad: string)
    requires pad == "" || pad == "=" || pad == "=="
    ensures StripPadding(UrlText(x) + pad) == UrlText(x)
  {
    var s := UrlText(x);
    assert StripPadding(s) == s;
    hide UrlText, StripPadding;
    if pad == "" {
      assert s + pad == s;
    } else if pad == "=" {
      StripOne(s);
    } else {
      StripOne(s);
      StripOne(s + "=");
      assert s + pad == s + "=" + "=";
    }
  }

  /** Padded text of sextets decodes to their bytes. */
  lemma AtobStdText(x: seq<Sextet>)
    requires |x| % 4 != 1
    ensures Atob(StdText(x) + Padding(|x|)) == Some(Binary(FromSextets(x)))
  {
    StdTextPlain(x);
    StripWhitespaceNone(StdText(x) + Padding(|x|));
    DropPaddingExact(StdText(x));
    ValuesStdText(x);
  }

  /** With one character too many the decoder throws. */
  lemma AtobTooLong(x: seq<Sextet>)
    requires |x| % 4 == 1
    ensures Atob(StdText(x) + PadFor(|x|)) == None
  {
    assert PadFor(|x|) == "===";
    StdTextPlain(x);
    StripWhitespaceNone(StdText(x) + "===");
    DropPaddingExact(StdText(x));
    ValuesRejects(StdText(x) + "=", |x|);
  }

  // ---- What atob accepts ----

  /** White space goes wherever it stands, the rest stays in order. */
  lemma {:induction false} StripWhitespaceConcat(s: string, t: string)
    ensures StripWhitespace(s + t) == StripWhitespace(s) + StripWhitespace(t)
  {
    if s == "" {
      assert s + t == t;
    } else {
      StripWhitespaceConcat(s[1..], t);
      assert (s + t)[0] == s[0] && (s + t)[1..] == s[1..] + t;
      var first := if AsciiWhitespace(s[0]) then "" else [s[0]];
      assert first + (StripWhitespace(s[1..]) + StripWhitespace(t)) == first + StripWhitespace(s[1..]) + StripWhitespace(t);
    }
  }

  lemma StripWhitespaceOne(c: char)
    ensures StripWhitespace([c]) == if c as int == 9 || c as int == 10 || c as int == 12 || c as int == 13 || c as int == 32 then "" else [c]
  {
  }

  lemma ValueChar(c: char)
    ensures StdValue(c).Some? ==> StdChar(StdValue(c).value) == c
  {
  }

  lemma {:induction false} ValuesAreText(s: string)
    ensures Values(s).Some? ==> StdText(Values(s).value) == s
  {
    if s != "" {
      ValuesAreText(s[1..]);
      ValueChar(s[0]);
    }
  }

  /** The text is that of the sextets, padded exactly or not at all. */
  predicate Spells(s: string, x: seq<Sextet>) {
    |x| % 4 != 1 && (s == StdText(x) || s == StdText(x) + Padding(|x|))
  }

  lemma SpelledAfterDrop(s: string)
    requires Values(DropPadding(s)).Some? && |DropPadding(s)| % 4 != 1
    ensures Spells(s, Values(DropPadding(s)).value)
  {
    hide Values, StdText;
    var d := DropPadding(s);
    ValuesAreText(d);
    if |d| + 1 == |s| {
      assert s == d + "=";
    } else if |d| + 2 == |s| {
      assert s == d + "==";
    }
  }

  lemma DecodedWhenSpelled(s: string, x: seq<Sextet>)
    requires Spells(s, x)
    ensures DropPadding(s) == StdText(x) && Values(DropPadding(s)) == Some(x)
  {
    StdTextPlain(x);
    DropPaddingExact(StdText(x));
    ValuesStdText(x);
  }

  /** For every text: atob yields the bytes of the sextets that the text without its white space spells,
      and throws exactly when it spells none. */
  lemma AtobExactly(text: string)
    ensures Atob(text).Some? <==> exists x: seq<Sextet> :: Spells(StripWhitespace(text), x)
    ensures forall x: seq<Sextet> :: Spells(StripWhitespace(text), x) ==> Atob(text) == Some(Binary(FromSextets(x)))
  {
    var s := StripWhitespace(text);
    forall x: seq<Sextet> | Spells(s, x)
      ensures Atob(text) == Some(Binary(FromSextets(x)))
    {
      DecodedWhenSpelled(s, x);
      SpelledLength(s, x);
    }
    if Atob(text).Some? {
      AtobSpelled(text);
    }
  }

  lemma AtobSpelled(text: string)
    requires Atob(text).Some?
    ensures exists x: seq<Sextet> :: Spells(StripWhitespace(text), x)
  {
    hide Values, Spells;
    SpelledAfterDrop(StripWhitespace(text));
    assert Spells(StripWhitespace(text), Values(DropPadding(StripWhitespace(text))).value);
  }

  lemma SpelledLength(s: string, x: seq<Sextet>)
    requires Spells(s, x)
    ensures |StdText(x)| % 4 != 1
  {
  }

  // ---- Round trips ----

  /** Decoding what was encoded gives the bytes back, for every byte sequence. */
  lemma DecodeEncode(b: seq<Byte>)
    ensures Base64urlToBytes(Base64url(b)) == Some(b)
  {
    var x := Sextets(b);
    FromSextetsSextets(b);
    ToStdUrlText(x);
    PaddingIsPadFor(|x|);
    AtobStdText(x);
    CharCodesBinary(b);
  }

  /** A text over the url alphabet decodes unless its length is 1 modulo 4; and encoding the result
      gives the text back exactly when its unused bits are zero. */
  lemma EncodeDecode(x: seq<Sextet>)
    ensures Base64urlToBytes(UrlText(x)).Some? <==> |x| % 4 != 1
    ensures |x| % 4 != 1 ==> (Base64url(Base64urlToBytes(UrlText(x)).value) == UrlText(x) <==> ZeroTail(x))
  {
    ToStdUrlText(x);
    if |x| % 4 == 1 {
      AtobTooLong(x);
    } else {
      PaddingIsPadFor(|x|);
      AtobStdText(x);
      CharCodesBinary(FromSextets(x));
      SextetsFromSextets(x);
      CutTailFixes(x);
      UrlTextInjective(CutTail(x), x);
    }
  }

  lemma UrlTextInjective(x: seq<Sextet>, y: seq<Sextet>)
    requires |x| == |y|
    ensures UrlText(x) == UrlText(y) <==> x == y
  {
    if UrlText(x) == UrlText(y) {
      forall i | 0 <= i < |x|
        ensures x[i] == y[i]
      {
        assert UrlText(x)[i] == UrlText(y)[i];
      }
    }
  }

  /** Re-padding on the server yields exactly the section 4 encoding of the bytes, so it decodes to them. */
  lemma ServerRepads(b: seq<Byte>)
    ensures Base64urlToBase64(Base64url(b)) == Base64(b)
    ensures Base64ToBytes(Base64urlToBase64(Base64url(b))) == Some(b)
  {
    var x := Sextets(b);
    FromSextetsSextets(b);
    ToStdUrlText(x);
    PaddingIsPadFor(|x|);
    AtobStdText(x);
    CharCodesBinary(b);
  }

  /** The url text is the section 4 text without its padding, with '-' and '_' for '+' and '/'. */
  lemma AlphabetsDiffer(b: seq<Byte>)
    ensures var std, url := Base64(b), Base64url(b);
      && |url| <= |std| && (forall i :: |url| <= i < |std| ==> std[i] == '=')
      && forall i :: 0 <= i < |url| ==> std[i] != '=' && url[i] == if std[i] == '+' then '-' else if std[i] == '/' then '_' else std[i]
  {
  }

  // ---- The encoders, with their loops ----

  method BytesToBase64(value: seq<Byte>) returns (s: string)
    ensures s == Base64(value)
    ensures Base64ToBytes(s) == Some(value)
  {
    var binary := "";
    var i := 0;
    while i < |value|
      invariant 0 <= i <= |value|
      invariant |binary| == i && forall j :: 0 <= j < i ==> binary[j] as int == value[j]
    {
      binary := binary + [value[i] as char];
      i := i + 1;
    }
    BinaryUnique(binary, value);
    CharCodesBinary(value);
    var encoded := Btoa(binary);
    s := encoded.value;
    FromSextetsSextets(value);
    AtobStdText(Sextets(value));
  }

  method BytesToBase64url(buffer: seq<Byte>) returns (s: string)
    ensures s == Base64url(buffer)
    ensures Base64urlToBytes(s) == Some(buffer)
  {
    var binary := "";
    var i := 0;
    while i < |buffer|
      invariant 0 <= i <= |buffer|
      invariant |binary| == i && forall j :: 0 <= j < i ==> binary[j] as int == buffer[j]
    {
      binary := binary + [buffer[i] as char];
      i := i + 1;
    }
    BinaryUnique(binary, buffer);
    CharCodesBinary(buffer);
    var x := Sextets(buffer);
    var encoded := Btoa(binary);
    s := StripPadding(ToUrl(encoded.value));
    ToUrlConcat(StdText(x), Padding(|x|));
    ToUrlStdText(x);
    ToUrlPadding(|x|);
    StripPaddingExact(x, Padding(|x|));
    DecodeEncode(buffer);
  }

  lemma BinaryUnique(binary: string, b: seq<Byte>)
    requires |binary| == |b| && forall j :: 0 <= j < |b| ==> binary[j] as int == b[j]
    ensures binary == Binary(b)
  {
    forall i | 0 <= i < |b|
      ensures binary[i] == Binary(b)[i]
    {
      assert binary[i] as int == Binary(b)[i] as int;
    }
  }
}
