/**
 * The textual address algebra of the scoped-storage bridge. A request path
 * becomes a content address by dropping the scoped root from it,
 * percent-encoding what is left (`Uri.encode`, section 2.1 of RFC 3986, so
 * '/' becomes "%2F") and putting the root back in front. The inverse split
 * cuts an address at its last encoded separator.
 */
module ScopedAddress {
  import opened Wrappers
  import opened Strings

  type Byte = b: int | 0 <= b < 256

  /** The encoded path separator. */
  const SEP: string := "%2F"

  /** The characters `Uri.encode` leaves as they are. */
  predicate Unreserved(c: char) {
    'a' <= c <= 'z' || 'A' <= c <= 'Z' || '0' <= c <= '9' || c in "_-!.~'()*"
  }

  function HexDigit(n: int): char
    requires 0 <= n < 16
  {
    "0123456789ABCDEF"[n]
  }

  /** "%XY" with upper-case hexadecimal digits. */
  function Escape(b: Byte): string {
    ['%', HexDigit(b / 16), HexDigit(b % 16)]
  }

  /** The UTF-8 encoding of one character. */
  function Utf8(c: char): (bs: seq<Byte>)
    ensures c as int < 0x80 ==> bs == [c as int]
    ensures c as int >= 0x80 ==> forall i :: 0 <= i < |bs| ==> bs[i] >= 0x80
  {
    var n := c as int;
    if n < 0x80 then [n]
    else if n < 0x800 then [0xC0 + n / 64, 0x80 + n % 64]
    else if n < 0x10000 then [0xE0 + n / 4096, 0x80 + (n / 64) % 64, 0x80 + n % 64]
    else [0xF0 + (n / 262144) % 8, 0x80 + (n / 4096) % 64, 0x80 + (n / 64) % 64, 0x80 + n % 64]
  }

  function EscapeBytes(bs: seq<Byte>): string {
    if bs == [] then [] else Escape(bs[0]) + EscapeBytes(bs[1..])
  }

  function EncodeChar(c: char): string {
    if Unreserved(c) then [c] else EscapeBytes(Utf8(c))
  }

  /** `Uri.encode(s)`. */
  function Encode(s: string): string {
    if s == [] then [] else EncodeChar(s[0]) + Encode(s[1..])
  }

  predicate IsHex(c: char) {
    '0' <= c <= '9' || 'A' <= c <= 'F' || 'a' <= c <= 'f'
  }

  function HexValue(c: char): (n: int)
    requires IsHex(c)
    ensures 0 <= n < 16
  {
    if '0' <= c <= '9' then c as int - '0' as int
    else if 'A' <= c <= 'F' then c as int - 'A' as int + 10
    else c as int - 'a' as int + 10
  }

  /**
   * `Uri.decode(s)`: every "%XY" with two hexadecimal digits becomes the
   * character with that code; every other character stays.
   */
  function Decode(s: string): string
    decreases |s|
  {
    if s == [] then []
    else if s[0] == '%' && |s| >= 3 && IsHex(s[1]) && IsHex(s[2]) then
      [(16 * HexValue(s[1]) + HexValue(s[2])) as char] + Decode(s[3..])
    else [s[0]] + Decode(s[1..])
  }

  /** `normalizeUri`: the root, then the encoding of the input with every occurrence of the root removed. */
  function NormalizeUri(root: string, input: string): (r: string)
    ensures StartsWith(r, root)
    ensures '/' !in r[|root|..]
  {
    NoRawSlash(RemoveAll(input, root));
    root + Encode(RemoveAll(input, root))
  }

  /** The part of the address the split works on: one trailing "%2F" is dropped. */
  function StripSep(s: string): string {
    if EndsWith(s, SEP) then s[..|s| - 3] else s
  }

  /**
   * `getPathAndFilenameFromUri`: parent and leaf around the last "%2F", after
   * one trailing "%2F" is dropped. With no "%2F" left, `substring(0, -1)`
   * throws, which is `None` here.
   */
  function GetPathAndFilenameFromUri(s: string): (r: Option<(string, string)>)
    ensures r.None? <==> !Contains(StripSep(s), SEP)
    ensures r.Some? ==> r.value.0 + SEP + r.value.1 + (if EndsWith(s, SEP) then SEP else "") == s
    ensures r.Some? ==> !Contains(r.value.1, SEP)
  {
    var u := StripSep(s);
    var i := LastIndexOf(u, SEP);
    if i < 0 then None
    else
      LastSepSplit(u, i);
      StripSepRestores(s);
      Some((u[..i], u[i + 3..]))
  }

  /** Around the last "%2F", the leaf holds no "%2F". */
  lemma LastSepSplit(u: string, i: int)
    requires OccursAt(u, SEP, i) && forall j :: i < j ==> !OccursAt(u, SEP, j)
    ensures u == u[..i] + SEP + u[i + 3..]
    ensures !Contains(u[i + 3..], SEP)
  {
    var leaf := u[i + 3..];
    forall j | 0 <= j <= |leaf|
      ensures !OccursAt(leaf, SEP, j)
    {
      if j + 3 <= |leaf| {
        assert leaf[j..j + 3] == u[i + 3 + j..i + 3 + j + 3];
        assert !OccursAt(u, SEP, i + 3 + j);
      }
    }
  }

  lemma StripSepRestores(s: string)
    ensures StripSep(s) + (if EndsWith(s, SEP) then SEP else "") == s
  {
  }

  // ------------------------------------------------------------- encoding

  lemma {:induction false} EncodeAppend(a: string, b: string)
    ensures Encode(a + b) == Encode(a) + Encode(b)
    decreases |a|
  {
    if a == [] {
      assert a + b == b;
    } else {
      assert (a + b)[0] == a[0] && (a + b)[1..] == a[1..] + b;
      EncodeAppend(a[1..], b);
    }
  }

  lemma {:induction false} EscapeBytesNoSlash(bs: seq<Byte>)
    ensures '/' !in EscapeBytes(bs)
    decreases |bs|
  {
    if bs != [] {
      EscapeBytesNoSlash(bs[1..]);
    }
  }

  /** The encoding never contains a raw '/'. */
  lemma {:induction false} NoRawSlash(s: string)
    ensures '/' !in Encode(s)
    decreases |s|
  {
    if s != [] {
      EscapeBytesNoSlash(Utf8(s[0]));
      NoRawSlash(s[1..]);
    }
  }

  lemma EncodeSlash()
    ensures Encode("/") == SEP
  {
    assert Utf8('/') == [47];
    assert EscapeBytes([47]) == Escape(47) + EscapeBytes([]);
  }

  /** Every '%' of `e` starts an escape, and none of them is "%2F". */
  predicate NoSepStart(e: string) {
    forall k :: 0 <= k < |e| && e[k] == '%' ==> k + 2 < |e| && e[k + 1..k + 3] != "2F"
  }

  lemma NoSepStartAppend(a: string, b: string)
    requires NoSepStart(a) && NoSepStart(b)
    ensures NoSepStart(a + b)
  {
    var e := a + b;
    forall k | 0 <= k < |e| && e[k] == '%'
      ensures k + 2 < |e| && e[k + 1..k + 3] != "2F"
    {
      if k < |a| {
        assert a[k] == '%';
        assert e[k + 1..k + 3] == a[k + 1..k + 3];
      } else {
        assert b[k - |a|] == '%';
        assert e[k + 1..k + 3] == b[k - |a| + 1..k - |a| + 3];
      }
    }
  }

  lemma EscapeNoSep(b: Byte)
    requires b != 0x2F
    ensures NoSepStart(Escape(b))
  {
    var e := Escape(b);
    HexRoundTrip(b / 16);
    HexRoundTrip(b % 16);
    assert e[1] != '2' || e[2] != 'F';
  }

  lemma {:induction false} EscapeBytesNoSep(bs: seq<Byte>)
    requires 0x2F !in bs
    ensures NoSepStart(EscapeBytes(bs))
    decreases |bs|
  {
    if bs == [] {
    } else {
      EscapeNoSep(bs[0]);
      EscapeBytesNoSep(bs[1..]);
      NoSepStartAppend(Escape(bs[0]), EscapeBytes(bs[1..]));
    }
  }

  /** Without a '/' in the input, "%2F" never occurs in the encoding. */
  lemma {:induction false} EncodeNoSep(s: string)
    requires '/' !in s
    ensures NoSepStart(Encode(s))
    ensures !Contains(Encode(s), SEP)
    decreases |s|
  {
    if s != [] {
      var c := s[0];
      if !Unreserved(c) {
        if c as int >= 0x80 {
          assert 0x2F !in Utf8(c) by {
            forall i | 0 <= i < |Utf8(c)|
              ensures Utf8(c)[i] != 0x2F
            {
            }
          }
        }
        EscapeBytesNoSep(Utf8(c));
      }
      EncodeNoSep(s[1..]);
      NoSepStartAppend(EncodeChar(c), Encode(s[1..]));
    }
    NoSepStartNoSep(Encode(s));
  }

  lemma NoSepStartNoSep(e: string)
    requires NoSepStart(e)
    ensures !Contains(e, SEP)
  {
    forall i | 0 <= i <= |e|
      ensures !OccursAt(e, SEP, i)
    {
      if i + 3 <= |e| && e[i] == '%' {
        assert e[i..i + 3][1..] == e[i + 1..i + 3] != "2F";
      }
    }
  }

  // ------------------------------------------------------------- decoding

  predicate IsAscii(s: string) {
    forall i :: 0 <= i < |s| ==> s[i] as int < 0x80
  }

  lemma HexRoundTrip(n: int)
    requires 0 <= n < 16
    ensures IsHex(HexDigit(n)) && HexValue(HexDigit(n)) == n
  {
  }

  lemma DecodeCharStep(c: char, rest: string)
    requires c as int < 0x80
    ensures Decode(EncodeChar(c) + rest) == [c] + Decode(rest)
  {
    if Unreserved(c) {
      assert ([c] + rest)[1..] == rest;
    } else {
      var b: Byte := c as int;
      assert Utf8(c) == [b];
      assert EscapeBytes([b]) == Escape(b) + EscapeBytes([]);
      HexRoundTrip(b / 16);
      HexRoundTrip(b % 16);
      var e := Escape(b) + rest;
      assert e[0] == '%' && e[1] == HexDigit(b / 16) && e[2] == HexDigit(b % 16);
      assert e[3..] == rest;
      assert (16 * HexValue(e[1]) + HexValue(e[2])) as char == c;
    }
  }

  /** `Uri.decode` undoes `Uri.encode` on ASCII text. */
  lemma {:induction false} DecodeEncode(s: string)
    requires IsAscii(s)
    ensures Decode(Encode(s)) == s
    decreases |s|
  {
    if s != [] {
      DecodeCharStep(s[0], Encode(s[1..]));
      assert IsAscii(s[1..]) by {
        forall i | 0 <= i < |s[1..]|
          ensures s[1..][i] as int < 0x80
        {
          assert s[1..][i] == s[i + 1];
        }
      }
      DecodeEncode(s[1..]);
    }
  }

  // ----------------------------------------------------- normalize, split

  /** Without an occurrence of `t`, nothing is removed. */
  lemma {:induction false} RemoveAllAbsent(s: string, t: string)
    requires t != [] && !Contains(s, t)
    ensures RemoveAll(s, t) == s
    decreases |s|
  {
    if s != [] {
      assert !StartsWith(s, t) by {
        if StartsWith(s, t) {
          assert OccursAt(s, t, 0);
        }
      }
      assert !Contains(s[1..], t) by {
        if i :| 0 <= i <= |s[1..]| && OccursAt(s[1..], t, i) {
          assert s[1..][i..i + |t|] == s[i + 1..i + 1 + |t|];
          assert OccursAt(s, t, i + 1);
        }
      }
      RemoveAllAbsent(s[1..], t);
    }
  }

  /** Every occurrence of the root goes, not just a leading one. */
  lemma RemovesInnerRoot()
    ensures NormalizeUri("T", "aTb") == "Tab"
  {
    assert RemoveAll("b", "T") == "b";
    assert RemoveAll("Tb", "T") == "b";
    assert RemoveAll("aTb", "T") == "ab";
    assert Encode("b") == "b";
    assert Encode("ab") == "ab";
  }

  /** A path without the root in it is just encoded behind the root. */
  lemma NormalizeWithoutRoot(root: string, input: string)
    requires root != [] && !Contains(input, root)
    ensures NormalizeUri(root, input) == root + Encode(input)
  {
    RemoveAllAbsent(input, root);
  }

  /** The encoding of "a/b" is the encodings of "a" and "b" around "%2F". */
  lemma EncodeJoin(a: string, b: string)
    ensures Encode(a + "/" + b) == Encode(a) + SEP + Encode(b)
  {
    EncodeAppend(a, "/" + b);
    EncodeAppend("/", b);
    EncodeSlash();
    assert a + "/" + b == a + ("/" + b);
  }

  /** An address ending in a leaf free of "%2F" does not end in "%2F". */
  lemma LeafNotSep(x: string, y: string)
    requires y != [] && NoSepStart(y)
    ensures !EndsWith(x + SEP + y, SEP)
  {
    var s := x + SEP + y;
    if |y| >= 3 {
      var k := |y| - 3;
      assert s[|s| - 3..] == y[k..];
      if y[k] == '%' {
        assert y[k + 1..k + 3] != "2F";
        assert y[k..][1..] == y[k + 1..k + 3];
      }
    } else {
      assert s[|s| - 3] == SEP[|y|];
    }
  }

  /** After the separator in front of a leaf free of "%2F", no separator starts. */
  lemma NoSepAfter(x: string, y: string, j: int)
    requires NoSepStart(y) && j > |x|
    ensures !OccursAt(x + SEP + y, SEP, j)
  {
    var s := x + SEP + y;
    if j < |x| + 3 {
      assert s[j] == SEP[j - |x|];
    } else if j + 3 <= |s| {
      NoSepStartNoSep(y);
      assert s[j..j + 3] == y[j - |x| - 3..j - |x|];
      assert !OccursAt(y, SEP, j - |x| - 3);
    }
  }

  /** A leaf free of "%2F" is split off at the separator in front of it. */
  lemma SplitAtLast(x: string, y: string)
    requires y != [] && NoSepStart(y)
    ensures GetPathAndFilenameFromUri(x + SEP + y) == Some((x, y))
  {
    var s := x + SEP + y;
    LeafNotSep(x, y);
    assert StripSep(s) == s;
    assert OccursAt(s, SEP, |x|);
    forall j | j > |x|
      ensures !OccursAt(s, SEP, j)
    {
      NoSepAfter(x, y, j);
    }
    assert LastIndexOf(s, SEP) == |x|;
    assert s[..|x|] == x && s[|x| + 3..] == y;
  }

  /** Encoding "a/b" and splitting it again gives the encodings of "a" and "b". */
  lemma SplitEncoded(root: string, a: string, b: string)
    requires b != [] && '/' !in b
    ensures GetPathAndFilenameFromUri(root + Encode(a + "/" + b)) == Some((root + Encode(a), Encode(b)))
  {
    EncodeJoin(a, b);
    EncodeNoSep(b);
    assert Encode(b) != [] by {
      assert Encode(b) == EncodeChar(b[0]) + Encode(b[1..]);
    }
    assert root + Encode(a + "/" + b) == (root + Encode(a)) + SEP + Encode(b);
    SplitAtLast(root + Encode(a), Encode(b));
  }

  /**
   * The leaf the split yields, decoded and encoded again, is the leaf itself,
   * so a child created under the parent lands on the address that was split.
   */
  lemma CreatedWhereSplit(root: string, a: string, b: string)
    requires b != [] && '/' !in b && IsAscii(b)
    ensures var r := GetPathAndFilenameFromUri(root + Encode(a + "/" + b));
      r.Some? && r.value.0 + SEP + Encode(Decode(r.value.1)) == root + Encode(a + "/" + b)
  {
    SplitEncoded(root, a, b);
    DecodeEncode(b);
    EncodeJoin(a, b);
    assert root + Encode(a + "/" + b) == (root + Encode(a)) + SEP + Encode(b);
  }
}
