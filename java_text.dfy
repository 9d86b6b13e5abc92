/** The pieces of the Java class library that the form parse node relies on:
    String.trim, String.split with a one-character pattern, ASCII case folding,
    Integer.parseInt on ASCII digits, and URLDecoder.decode. The decoder is
    exact only while every `%hh` escape is below `%80`: an escape of 0x80 or
    above is read here as the Latin-1 character with that code, where Java
    decodes the run of such bytes as UTF-8. An independent percent-encoder
    (section 2.1 of RFC 3986) is the partner of the decoder. */
module JavaText {
  import opened Common

  // ---------------------------------------------------------------------------
  // String.trim: drops leading and trailing characters whose code is at most U+0020.

  predicate IsTrimmable(c: char) {
    c <= ' '
  }

  function TrimStart(s: string): (r: string)
    ensures |r| <= |s| && r == s[|s| - |r|..]
    ensures forall i :: 0 <= i < |s| - |r| ==> IsTrimmable(s[i])
    ensures r != [] ==> !IsTrimmable(r[0])
    decreases |s|
  {
    if s != [] && IsTrimmable(s[0]) then TrimStart(s[1..]) else s
  }

  function TrimEnd(s: string): (r: string)
    ensures |r| <= |s| && r == s[..|r|]
    ensures forall i :: |r| <= i < |s| ==> IsTrimmable(s[i])
    ensures r != [] ==> !IsTrimmable(r[|r| - 1])
    decreases |s|
  {
    if s != [] && IsTrimmable(s[|s| - 1]) then TrimEnd(s[..|s| - 1]) else s
  }

  /** Java's String.trim. */
  function Trim(s: string): (r: string)
    ensures r == [] || (!IsTrimmable(r[0]) && !IsTrimmable(r[|r| - 1]))
  {
    TrimEnd(TrimStart(s))
  }

  /** Trim keeps the longest infix of `s` that neither starts nor ends with a
      trimmable character: everything it cuts off is trimmable. */
  lemma TrimCutsTrimmable(s: string)
    ensures exists i, j :: 0 <= i <= j <= |s| && Trim(s) == s[i..j]
                           && (forall k :: 0 <= k < i ==> IsTrimmable(s[k]))
                           && (forall k :: j <= k < |s| ==> IsTrimmable(s[k]))
  {
    var t := TrimStart(s);
    var i := |s| - |t|;
    var r := TrimEnd(t);
    var j := i + |r|;
    assert r == s[i..j] by {
      assert t == s[i..] && r == t[..|r|];
    }
    assert forall k :: j <= k < |s| ==> IsTrimmable(s[k]) by {
      forall k | j <= k < |s| ensures IsTrimmable(s[k]) {
        assert s[k] == t[k - i];
      }
    }
    assert Trim(s) == r;
    assert 0 <= i <= j <= |s| && Trim(s) == s[i..j]
           && (forall k :: 0 <= k < i ==> IsTrimmable(s[k]))
           && (forall k :: j <= k < |s| ==> IsTrimmable(s[k]));
  }

  /** Trim adds no character. */
  lemma TrimWithin(s: string)
    ensures forall c :: c in Trim(s) ==> c in s
  {
    var t := TrimStart(s);
    assert t == s[|s| - |t|..];
    assert Trim(s) == t[..|Trim(s)|];
  }

  /** Trim leaves a string alone exactly when neither end is trimmable. */
  lemma TrimFixedIff(s: string)
    ensures Trim(s) == s <==> s == [] || (!IsTrimmable(s[0]) && !IsTrimmable(s[|s| - 1]))
  {
    if s != [] && !IsTrimmable(s[0]) && !IsTrimmable(s[|s| - 1]) {
      assert TrimStart(s) == s;
      assert TrimEnd(s) == s;
    }
  }

  lemma TrimIdempotent(s: string)
    ensures Trim(Trim(s)) == Trim(s)
  {
    var r := Trim(s);
    assert TrimStart(r) == r;
    assert TrimEnd(r) == r;
  }

  // ---------------------------------------------------------------------------
  // String.split with a one-character pattern and no limit.

  /** Every piece of `s` between occurrences of `d`, empty pieces included. */
  function Pieces(s: string, d: char): (r: seq<string>)
    ensures |r| >= 1
    decreases |s|
  {
    if s == [] then [[]]
    else
      var rest := Pieces(s[1..], d);
      if s[0] == d then [[]] + rest
      else [[s[0]] + rest[0]] + rest[1..]
  }

  /** No piece holds the separator, and every piece is made of characters of `s`. */
  lemma {:induction false} PiecesWithin(s: string, d: char)
    ensures forall i :: 0 <= i < |Pieces(s, d)| ==> d !in Pieces(s, d)[i]
    ensures forall i, c :: 0 <= i < |Pieces(s, d)| && c in Pieces(s, d)[i] ==> c in s
    decreases |s|
  {
    if s != [] {
      PiecesWithin(s[1..], d);
      assert forall c :: c in s[1..] ==> c in s;
    }
  }

  /** The pieces written back with `d` between them: the inverse of Pieces. */
  function Join(ps: seq<string>, d: char): string
    decreases |ps|
  {
    if ps == [] then []
    else if |ps| == 1 then ps[0]
    else ps[0] + [d] + Join(ps[1..], d)
  }

  lemma JoinThree(x: string, y: string, z: string, d: char)
    ensures Join([x, y, z], d) == x + [d] + y + [d] + z
  {
    var ps := [x, y, z];
    assert ps[1..] == [y, z] && ps[1..][1..] == [z];
    assert Join([y, z], d) == y + [d] + z;
    assert Join(ps, d) == x + [d] + (y + [d] + z);
  }

  /** The list with its trailing empty strings removed. */
  function DropTrailingEmpty(ps: seq<string>): (r: seq<string>)
    ensures |r| <= |ps| && r == ps[..|r|]
    ensures r != [] ==> r[|r| - 1] != []
    ensures forall i :: |r| <= i < |ps| ==> ps[i] == []
    decreases |ps|
  {
    if ps != [] && ps[|ps| - 1] == [] then DropTrailingEmpty(ps[..|ps| - 1]) else ps
  }

  /** Java's `s.split(d)`: a string without `d` (the empty string included) is
      its own only piece; otherwise the pieces, trailing empty ones dropped. */
  function Split(s: string, d: char): (r: seq<string>)
    ensures d !in s ==> r == [s]
    ensures r != [] && r[|r| - 1] == [] ==> s == [] && r == [[]]
  {
    if d in s then DropTrailingEmpty(Pieces(s, d)) else [s]
  }

  /** No piece of `s.split(d)` holds `d`, and every piece is made of characters of `s`. */
  lemma SplitWithin(s: string, d: char)
    ensures forall i :: 0 <= i < |Split(s, d)| ==> d !in Split(s, d)[i]
    ensures forall i, c :: 0 <= i < |Split(s, d)| && c in Split(s, d)[i] ==> c in s
  {
    PiecesWithin(s, d);
  }

  lemma {:induction false} JoinPieces(s: string, d: char)
    ensures Join(Pieces(s, d), d) == s
    decreases |s|
  {
    if s != [] {
      var rest := Pieces(s[1..], d);
      JoinPieces(s[1..], d);
      if s[0] == d {
        assert Pieces(s, d) == [[]] + rest;
        assert s == [d] + s[1..];
      } else if |rest| == 1 {
        assert Pieces(s, d) == [[s[0]] + rest[0]];
        assert s == [s[0]] + s[1..];
      } else {
        var ps := Pieces(s, d);
        assert ps == [[s[0]] + rest[0]] + rest[1..];
        assert ps[1..] == rest[1..];
        assert Join(rest, d) == rest[0] + [d] + Join(rest[1..], d);
        assert s == [s[0]] + s[1..];
      }
    }
  }

  lemma {:induction false} PiecesOfPlain(a: string, d: char)
    requires d !in a
    ensures Pieces(a, d) == [a]
    decreases |a|
  {
    if a != [] {
      assert d !in a[1..] by { forall c | c in a[1..] ensures c in a { } }
      PiecesOfPlain(a[1..], d);
      assert [a[0]] + a[1..] == a;
    }
  }

  lemma {:induction false} PiecesAfterDelimiter(a: string, t: string, d: char)
    requires d !in a
    ensures Pieces(a + [d] + t, d) == [a] + Pieces(t, d)
    decreases |a|
  {
    var s := a + [d] + t;
    if a == [] {
      assert s[0] == d && s[1..] == t;
    } else {
      assert d !in a[1..] by { forall c | c in a[1..] ensures c in a { } }
      PiecesAfterDelimiter(a[1..], t, d);
      assert s[1..] == a[1..] + [d] + t;
      assert s[0] == a[0] && a[0] != d;
      assert [a[0]] + a[1..] == a;
    }
  }

  lemma {:induction false} PiecesJoin(ps: seq<string>, d: char)
    requires |ps| >= 1
    requires forall i :: 0 <= i < |ps| ==> d !in ps[i]
    ensures Pieces(Join(ps, d), d) == ps
    decreases |ps|
  {
    if |ps| == 1 {
      PiecesOfPlain(ps[0], d);
    } else {
      PiecesJoin(ps[1..], d);
      PiecesAfterDelimiter(ps[0], Join(ps[1..], d), d);
      assert [ps[0]] + ps[1..] == ps;
    }
  }

  /** Split undoes Join when no piece holds the separator and the last piece is
      not empty (a single piece may be empty: "" splits to [""]). */
  lemma SplitJoin(ps: seq<string>, d: char)
    requires |ps| >= 1
    requires forall i :: 0 <= i < |ps| ==> d !in ps[i]
    requires |ps| == 1 || ps[|ps| - 1] != []
    ensures Split(Join(ps, d), d) == ps
  {
    if |ps| > 1 {
      var j := Join(ps, d);
      assert j[|ps[0]|] == d;
      PiecesJoin(ps, d);
    }
  }

  lemma {:induction false} PiecesOfDelimiters(s: string, d: char)
    requires forall i :: 0 <= i < |s| ==> s[i] == d
    ensures forall i :: 0 <= i < |Pieces(s, d)| ==> Pieces(s, d)[i] == []
    decreases |s|
  {
    if s != [] {
      PiecesOfDelimiters(s[1..], d);
    }
  }

  lemma {:induction false} JoinOfEmpties(ps: seq<string>, d: char)
    requires forall i :: 0 <= i < |ps| ==> ps[i] == []
    ensures forall i :: 0 <= i < |Join(ps, d)| ==> Join(ps, d)[i] == d
    decreases |ps|
  {
    if |ps| > 1 {
      JoinOfEmpties(ps[1..], d);
    }
  }

  /** `s.split(d)` is the empty array exactly when `s` is one or more `d`s. */
  lemma SplitEmptyIff(s: string, d: char)
    ensures |Split(s, d)| == 0 <==> s != [] && forall i :: 0 <= i < |s| ==> s[i] == d
  {
    if s != [] && forall i :: 0 <= i < |s| ==> s[i] == d {
      assert d in s by { assert s[0] == d; }
      PiecesOfDelimiters(s, d);
    }
    if |Split(s, d)| == 0 {
      var ps := Pieces(s, d);
      assert d in s;
      assert forall i :: 0 <= i < |ps| ==> ps[i] == [];
      JoinOfEmpties(ps, d);
      JoinPieces(s, d);
    }
  }

  // ---------------------------------------------------------------------------
  // Case folding on ASCII letters (String.toLowerCase, String.equalsIgnoreCase).

  function LowerChar(c: char): char {
    if 'A' <= c <= 'Z' then (c as int + 32) as char else c
  }

  function ToLower(s: string): (r: string)
    ensures |r| == |s|
    ensures forall i :: 0 <= i < |s| ==> r[i] == LowerChar(s[i])
    decreases |s|
  {
    if s == [] then [] else [LowerChar(s[0])] + ToLower(s[1..])
  }

  /** Java's equalsIgnoreCase, character by character. */
  predicate EqualsIgnoreCase(a: string, b: string): (r: bool)
    ensures r <==> ToLower(a) == ToLower(b)
  {
    |a| == |b| && forall i :: 0 <= i < |a| ==> LowerChar(a[i]) == LowerChar(b[i])
  }

  /** Lower-casing and then comparing with a lower-case word is the same as
      comparing with that word ignoring case. */
  lemma LowerEqualsIffIgnoreCase(s: string, t: string)
    requires ToLower(t) == t
    ensures ToLower(s) == t <==> EqualsIgnoreCase(s, t)
  {
    if EqualsIgnoreCase(s, t) {
      assert forall i :: 0 <= i < |s| ==> ToLower(s)[i] == t[i] by {
        forall i | 0 <= i < |s| ensures ToLower(s)[i] == t[i] {
          assert ToLower(t)[i] == LowerChar(t[i]);
        }
      }
    }
  }

  // ---------------------------------------------------------------------------
  // Integer.parseInt / Long.parseLong on ASCII decimal text, and toString.

  predicate IsDigit(c: char) {
    '0' <= c <= '9'
  }

  predicate AllDigits(s: string) {
    forall i :: 0 <= i < |s| ==> IsDigit(s[i])
  }

  function DigitsValue(s: string): nat
    requires AllDigits(s)
    decreases |s|
  {
    if s == [] then 0 else 10 * DigitsValue(s[..|s| - 1]) + (s[|s| - 1] as int - '0' as int)
  }

  /** The number an optionally signed run of one or more decimal digits
      denotes, or None for any other text (Java's parse throws there). */
  function ParseDecimal(s: string): (r: Option<int>)
    ensures r.Some? ==> s != [] && forall i :: 1 <= i < |s| ==> IsDigit(s[i])
    ensures r.Some? ==> IsDigit(s[|s| - 1]) && (IsDigit(s[0]) || s[0] == '-' || s[0] == '+')
    ensures r.Some? && r.value < 0 ==> s[0] == '-'
    ensures s != [] && (AllDigits(s) || (|s| > 1 && (s[0] == '-' || s[0] == '+') && AllDigits(s[1..]))) ==> r.Some?
  {
    if s == [] then None
    else if s[0] == '-' || s[0] == '+' then
      if |s| == 1 || !AllDigits(s[1..]) then None
      else if s[0] == '-' then Some(0 - DigitsValue(s[1..]))
      else Some(DigitsValue(s[1..]))
    else if AllDigits(s) then Some(DigitsValue(s))
    else None
  }

  /** Every run of digits parses to the number it denotes, bare, after '+', or
      negated after '-'; leading zeros and "-0" included. */
  lemma ParseDecimalDigits(d: string)
    requires d != [] && AllDigits(d)
    ensures ParseDecimal(d) == Some(DigitsValue(d))
    ensures ParseDecimal("+" + d) == Some(DigitsValue(d))
    ensures ParseDecimal("-" + d) == Some(0 - DigitsValue(d))
  {
    assert ("+" + d)[1..] == d;
    assert ("-" + d)[1..] == d;
  }

  function DigitChar(k: nat): (c: char)
    requires k < 10
    ensures IsDigit(c) && c as int - '0' as int == k
  {
    ('0' as int + k) as char
  }

  /** The decimal digits of `n` (Integer.toString of a non-negative number). */
  function NatString(n: nat): (r: string)
    ensures r != [] && AllDigits(r) && DigitsValue(r) == n
    decreases n
  {
    if n < 10 then [DigitChar(n)]
    else
      var r := NatString(n / 10) + [DigitChar(n % 10)];
      assert r[..|r| - 1] == NatString(n / 10);
      r
  }

  /** Integer.toString / Long.toString. */
  function DecimalString(n: int): string {
    if n < 0 then "-" + NatString(-n) else NatString(n)
  }

  /** Parsing undoes printing, for every integer. */
  lemma ParseDecimalString(n: int)
    ensures ParseDecimal(DecimalString(n)) == Some(n)
  {
    var s := DecimalString(n);
    if n < 0 {
      assert s[1..] == NatString(-n);
    } else {
      assert IsDigit(s[0]);
    }
  }

  // ---------------------------------------------------------------------------
  // URLDecoder.decode: '+' is a space, "%hh" is the byte 0xhh, a '%' that does
  // not start a well-formed escape throws IllegalArgumentException.

  predicate IsHexDigit(c: char) {
    '0' <= c <= '9' || 'a' <= c <= 'f' || 'A' <= c <= 'F'
  }

  function HexValue(c: char): (v: nat)
    requires IsHexDigit(c)
    ensures v < 16
  {
    if '0' <= c <= '9' then c as int - '0' as int
    else if 'a' <= c <= 'f' then c as int - 'a' as int + 10
    else c as int - 'A' as int + 10
  }

  /** What Integer.parseInt(_, 16) makes of the two characters after a '%'
      (a signed digit parses too; a negative value is refused). */
  function EscapeValue(a: char, b: char): (r: Option<nat>)
    ensures r.Some? ==> r.value < 256
  {
    if IsHexDigit(a) && IsHexDigit(b) then Some(16 * HexValue(a) + HexValue(b))
    else if a == '+' && IsHexDigit(b) then Some(HexValue(b))
    else if a == '-' && b == '0' then Some(0)
    else None
  }

  function Prepend(c: char, r: Result<string>): Result<string> {
    if r.Ok? then Ok([c] + r.value) else r
  }

  function UrlDecode(s: string): (r: Result<string>)
    ensures r.Err? ==> r.error == IllegalArgumentException
    decreases |s|
  {
    if s == [] then Ok([])
    else if s[0] == '+' then Prepend(' ', UrlDecode(s[1..]))
    else if s[0] == '%' then
      if |s| >= 3 && EscapeValue(s[1], s[2]).Some? then
        Prepend(EscapeValue(s[1], s[2]).value as char, UrlDecode(s[3..]))
      else Err(IllegalArgumentException)
    else Prepend(s[0], UrlDecode(s[1..]))
  }

  /** A '%' at `i` that does not start an escape parseInt accepts. */
  predicate MalformedEscape(s: string, i: nat)
    requires i < |s|
  {
    s[i] == '%' && !(i + 2 < |s| && EscapeValue(s[i + 1], s[i + 2]).Some?)
  }

  lemma MalformedEscapeShift(s: string, k: nat, j: nat)
    requires k <= |s| && j < |s| - k
    ensures MalformedEscape(s, k + j) == MalformedEscape(s[k..], j)
  {
  }

  /** Decoding throws exactly when some '%' does not start an escape. */
  lemma {:induction false} UrlDecodeErrIff(s: string)
    ensures UrlDecode(s).Err? <==> exists i :: 0 <= i < |s| && MalformedEscape(s, i)
    decreases |s|
  {
    if s == [] {
    } else if s[0] == '%' && MalformedEscape(s, 0) {
    } else {
      var k := if s[0] == '%' then 3 else 1;
      UrlDecodeErrIff(s[k..]);
      forall i | 0 <= i < |s| && MalformedEscape(s, i)
        ensures exists j :: 0 <= j < |s[k..]| && MalformedEscape(s[k..], j)
      {
        MalformedEscapeShift(s, k, i - k);
      }
      forall j | 0 <= j < |s[k..]| && MalformedEscape(s[k..], j)
        ensures exists i :: 0 <= i < |s| && MalformedEscape(s, i)
      {
        MalformedEscapeShift(s, k, j);
      }
    }
  }

  /** Text without '+' or '%' decodes to itself. */
  lemma {:induction false} UrlDecodePlain(s: string)
    requires '+' !in s && '%' !in s
    ensures UrlDecode(s) == Ok(s)
    decreases |s|
  {
    if s != [] {
      assert '+' !in s[1..] && '%' !in s[1..] by {
        forall c | c in s[1..] ensures c in s { }
      }
      UrlDecodePlain(s[1..]);
      assert [s[0]] + s[1..] == s;
    }
  }

  predicate IsAlphaNumeric(c: char) {
    '0' <= c <= '9' || 'a' <= c <= 'z' || 'A' <= c <= 'Z'
  }

  predicate IsAscii(s: string) {
    forall i :: 0 <= i < |s| ==> s[i] as int < 128
  }

  function HexChar(k: nat): (c: char)
    requires k < 16
    ensures IsHexDigit(c) && HexValue(c) == k
  {
    if k < 10 then ('0' as int + k) as char else ('A' as int + k - 10) as char
  }

  /** Percent-encoding of ASCII text: letters and digits stay, every other
      character becomes "%" and two upper-case hex digits. */
  function PercentEncode(t: string): string
    requires IsAscii(t)
    decreases |t|
  {
    if t == [] then []
    else
      var c := t[0];
      (if IsAlphaNumeric(c) then [c] else ['%', HexChar(c as int / 16), HexChar(c as int % 16)])
      + PercentEncode(t[1..])
  }

  /** Decoding undoes percent-encoding, for every ASCII text. */
  lemma {:induction false} UrlDecodeEncoded(t: string)
    requires IsAscii(t)
    ensures UrlDecode(PercentEncode(t)) == Ok(t)
    decreases |t|
  {
    if t != [] {
      var c := t[0];
      var rest := PercentEncode(t[1..]);
      UrlDecodeEncoded(t[1..]);
      var e := PercentEncode(t);
      if IsAlphaNumeric(c) {
        assert e == [c] + rest;
        assert e[1..] == rest;
      } else {
        var h, l := HexChar(c as int / 16), HexChar(c as int % 16);
        assert e == ['%', h, l] + rest;
        assert e[0] == '%' && e[1] == h && e[2] == l && e[3..] == rest;
        assert EscapeValue(h, l) == Some(c as int);
      }
      assert [c] + t[1..] == t;
    }
  }
}
