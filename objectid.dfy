/**
 * The ObjectId key type of objectid.py: twelve raw bytes read as a big-endian
 * 96-bit number, the two byte shuffles between server and client order, the
 * integer conversions and arithmetic, and rounding of a timestamp id to the
 * first or last id of its 2-byte prefix.
 *
 * The bson library that objectid.py builds on is not part of this model. What
 * the model relies on from it: an ObjectId holds 12 bytes; its constructor
 * accepts a 12-character byte string as the raw bytes, or a 24-character hex
 * string, and raises InvalidId for anything else; `str` of an id is its 24 hex
 * digits; ids compare by their bytes; `from_datetime` puts the Unix seconds in
 * the first 4 bytes, most significant first, followed by 8 zero bytes.
 */
module ObjectIds {
  import opened Wrappers

  type Byte = b: int | 0 <= b < 256

  /** The 12 raw bytes of an id. */
  type IdBytes = s: seq<Byte> | |s| == 12 witness [0, 0, 0, 0, 0, 0, 0, 0, 0, 0, 0, 0]

  /** An id and its `client` flag, which is true for ids in client byte order. */
  datatype ObjectId = ObjectId(bytes: IdBytes, client: bool)

  datatype IdError =
    | InvalidId       // bson refuses the string it was given
    | BothMinAndMax   // the assertion at the top of from_datetime

  /** Unix seconds that fit the 4-byte timestamp of an id. */
  type Seconds = t: int | 0 <= t < 0x1_0000_0000

  // ---------------------------------------------------------------------------
  // Numbers

  function Pow256(n: nat): (r: nat)
    ensures r > 0
  {
    if n == 0 then 1 else 256 * Pow256(n - 1)
  }

  function Pow16(n: nat): (r: nat)
    ensures r > 0
  {
    if n == 0 then 1 else 16 * Pow16(n - 1)
  }

  /** 256^10: the weight of the second byte of an id. */
  const Width10: nat := 0x1_0000_0000_0000_0000_0000

  /** The number a byte string stands for, most significant byte first. */
  function BigEndian(s: seq<Byte>): (r: nat)
    ensures r < Pow256(|s|)
  {
    if s == [] then 0 else BigEndian(s[..|s| - 1]) * 256 + s[|s| - 1]
  }

  /** `__int__`: the 24 hex digits of `str(id)` read in base 16, which is the
      12 bytes read most significant first. */
  function Int(o: ObjectId): (r: nat)
    ensures r < Pow256(12)
  {
    BigEndian(o.bytes)
  }

  /** The order in which bson compares ids (byte by byte, which for two
      12-byte strings is the order of their numbers). */
  predicate Less(a: ObjectId, b: ObjectId)
  {
    Int(a) < Int(b)
  }

  // ---------------------------------------------------------------------------
  // Client and server byte order

  /** Index tables of to_client_id and to_server_id: byte i of the result is
      byte table[i] of the input. */
  const ClientRemap: seq<int> := [0, 1, 4, 5, 6, 7, 8, 2, 3, 9, 10, 11]
  const ServerRemap: seq<int> := [0, 1, 7, 8, 2, 3, 4, 5, 6, 9, 10, 11]

  predicate IsTable(table: seq<int>)
  {
    |table| == 12 && forall i :: 0 <= i < 12 ==> 0 <= table[i] < 12
  }

  function Remap(b: IdBytes, table: seq<int>): (r: IdBytes)
    requires IsTable(table)
    ensures forall i :: 0 <= i < 12 ==> r[i] == b[table[i]]
  {
    seq(12, i requires 0 <= i < 12 => b[table[i]])
  }

  /** `to_client_id`: bytes 2-3 of the server id move behind bytes 4-8. */
  function ToClientId(o: ObjectId): (r: ObjectId)
    ensures r.client
    ensures r.bytes == o.bytes[..2] + o.bytes[4..9] + o.bytes[2..4] + o.bytes[9..]
  {
    var b := Remap(o.bytes, ClientRemap);
    assert forall i :: 0 <= i < 12 ==> b[i] == (o.bytes[..2] + o.bytes[4..9] + o.bytes[2..4] + o.bytes[9..])[i];
    ObjectId(b, true)
  }

  /** `to_server_id`: bytes 7-8 of the client id move in front of bytes 2-6. */
  function ToServerId(o: ObjectId): (r: ObjectId)
    ensures !r.client
    ensures r.bytes == o.bytes[..2] + o.bytes[7..9] + o.bytes[2..7] + o.bytes[9..]
  {
    var b := Remap(o.bytes, ServerRemap);
    assert forall i :: 0 <= i < 12 ==> b[i] == (o.bytes[..2] + o.bytes[7..9] + o.bytes[2..7] + o.bytes[9..])[i];
    ObjectId(b, false)
  }

  /** Looking a position up in one table and then in the other gives the
      position back, in either order: the two tables are inverse permutations. */
  lemma {:induction false} RemapTablesInverse()
    ensures IsTable(ClientRemap) && IsTable(ServerRemap)
    ensures forall i :: 0 <= i < 12 ==> ClientRemap[ServerRemap[i]] == i
    ensures forall i :: 0 <= i < 12 ==> ServerRemap[ClientRemap[i]] == i
  {
  }

  /** to_server_id undoes to_client_id, and the result is flagged as a server id. */
  lemma ServerOfClient(o: ObjectId)
    ensures ToServerId(ToClientId(o)).bytes == o.bytes
    ensures !ToServerId(ToClientId(o)).client
  {
    RemapTablesInverse();
    var r := ToServerId(ToClientId(o)).bytes;
    forall i | 0 <= i < 12
      ensures r[i] == o.bytes[i]
    {
      assert r[i] == ToClientId(o).bytes[ServerRemap[i]];
    }
  }

  /** to_client_id undoes to_server_id, and the result is flagged as a client id. */
  lemma ClientOfServer(o: ObjectId)
    ensures ToClientId(ToServerId(o)).bytes == o.bytes
    ensures ToClientId(ToServerId(o)).client
  {
    RemapTablesInverse();
    var r := ToClientId(ToServerId(o)).bytes;
    forall i | 0 <= i < 12
      ensures r[i] == o.bytes[i]
    {
      assert r[i] == ToServerId(o).bytes[ClientRemap[i]];
    }
  }

  /** Both shuffles keep bytes 0, 1 and 9 to 11 where they are and only move
      bytes among positions 2 to 8. */
  lemma RemapsMoveOnlyMiddleBytes(o: ObjectId)
    ensures forall i :: 0 <= i < 12 && !(2 <= i <= 8) ==>
      ToClientId(o).bytes[i] == o.bytes[i] && ToServerId(o).bytes[i] == o.bytes[i]
    ensures forall i :: 2 <= i <= 8 ==> 2 <= ClientRemap[i] <= 8 && 2 <= ServerRemap[i] <= 8
  {
    RemapTablesInverse();
  }

  // ---------------------------------------------------------------------------
  // Hex text

  predicate IsHexChar(c: char)
  {
    '0' <= c <= '9' || 'a' <= c <= 'f'
  }

  function HexChar(d: nat): (c: char)
    requires d < 16
    ensures IsHexChar(c)
  {
    if d < 10 then ('0' as int + d) as char else ('a' as int + d - 10) as char
  }

  function HexValue(c: char): (d: nat)
    requires IsHexChar(c)
    ensures d < 16
  {
    if c <= '9' then c as int - '0' as int else c as int - 'a' as int + 10
  }

  predicate AllHex(s: string)
  {
    forall i :: 0 <= i < |s| ==> IsHexChar(s[i])
  }

  /** The lower-case hex digits of n without leading zeros, as `hex` writes them. */
  function HexDigits(n: nat): (r: string)
    ensures |r| >= 1 && AllHex(r)
  {
    if n < 16 then [HexChar(n)] else HexDigits(n / 16) + [HexChar(n % 16)]
  }

  /** `hex(x)[2:].rstrip('L')`: `hex` without its "0x" (and without the 'L' of a
      long). For a negative x the slice keeps the 'x' of "-0x". */
  function HexText(x: int): (r: string)
    ensures forall i :: 0 <= i < |r| ==> r[i] as int < 128
  {
    if x < 0 then "x" + HexDigits(-x) else HexDigits(x)
  }

  /** A string of hex digits read in base 16. */
  function HexNumber(s: string): nat
    requires AllHex(s)
  {
    if s == [] then 0 else HexNumber(s[..|s| - 1]) * 16 + HexValue(s[|s| - 1])
  }

  /** Hex digits two by two into bytes. */
  function DecodeHex(s: string): (r: seq<Byte>)
    requires AllHex(s) && |s| % 2 == 0
    ensures |r| == |s| / 2
  {
    if s == [] then []
    else DecodeHex(s[..|s| - 2]) + [HexValue(s[|s| - 2]) * 16 + HexValue(s[|s| - 1])]
  }

  // ---------------------------------------------------------------------------
  // Integer conversions and arithmetic

  /** `from_int`: the id bson builds from the unpadded hex text of x. Twelve
      characters are taken as the raw bytes (the codes of the characters),
      twenty-four hex digits are decoded, and every other text is refused. */
  function FromInt(x: int): (r: Result<ObjectId, IdError>)
    ensures r.Success? ==> !r.value.client
  {
    var text := HexText(x);
    if |text| == 12 then Success(ObjectId(seq(12, i requires 0 <= i < 12 => text[i] as int), false))
    else if |text| == 24 && AllHex(text) then Success(ObjectId(DecodeHex(text), false))
    else Failure(InvalidId)
  }

  /** `a + other`: the id of the sum of the numbers; exact when the sum has
      24 hex digits. */
  function Add(a: ObjectId, other: int): (r: Result<ObjectId, IdError>)
    ensures r.Success? ==> !r.value.client
    ensures Pow16(23) <= Int(a) + other < Pow16(24) ==> r.Success? && Int(r.value) == Int(a) + other
  {
    var x := Int(a) + other;
    if Pow16(23) <= x < Pow16(24) then
      FromIntExact(x);
      FromInt(x)
    else
      FromInt(x)
  }

  /** `a - b`: a plain integer, the difference of the numbers. It is zero for
      an id minus itself and lies strictly between -256^12 and 256^12. */
  function Sub(a: ObjectId, b: ObjectId): (r: int)
    ensures a == b ==> r == 0
    ensures -(Pow256(12) as int) < r < Pow256(12)
  {
    Int(a) - Int(b)
  }

  lemma {:induction false} Pow16Pow256(n: nat)
    ensures Pow16(2 * n) == Pow256(n)
  {
    if n > 0 {
      Pow16Pow256(n - 1);
      assert Pow16(2 * n) == 16 * (16 * Pow16(2 * (n - 1)));
    }
  }

  lemma {:induction false} Pow256Monotone(m: nat, n: nat)
    requires m <= n
    ensures Pow256(m) <= Pow256(n)
  {
    if m < n {
      Pow256Monotone(m, n - 1);
    }
  }

  lemma Pow256Ten()
    ensures Pow256(10) == Width10
  {
    assert Pow256(2) == 0x1_0000;
    assert Pow256(4) == 0x1_0000_0000;
    assert Pow256(6) == 0x1_0000_0000_0000;
    assert Pow256(8) == 0x1_0000_0000_0000_0000;
  }

  /** n has exactly k hex digits when 16^(k-1) <= n < 16^k. */
  lemma {:induction false} HexDigitsLength(n: nat, k: nat)
    requires 1 <= k && Pow16(k - 1) <= n < Pow16(k)
    ensures |HexDigits(n)| == k
  {
    if k > 1 {
      assert Pow16(k - 1) == 16 * Pow16(k - 2);
      HexDigitsLength(n / 16, k - 1);
    }
  }

  /** No more than k digits for a number below 16^k. */
  lemma {:induction false} HexDigitsAtMost(n: nat, k: nat)
    requires 1 <= k && n < Pow16(k)
    ensures |HexDigits(n)| <= k
  {
    if n >= 16 {
      assert Pow16(k) == 16 * Pow16(k - 1);
      assert k > 1;
      HexDigitsAtMost(n / 16, k - 1);
    }
  }

  /** More than k digits for a number of at least 16^k. */
  lemma {:induction false} HexDigitsMoreThan(n: nat, k: nat)
    requires Pow16(k) <= n
    ensures |HexDigits(n)| > k
  {
    if k > 0 {
      assert Pow16(k) == 16 * Pow16(k - 1);
      HexDigitsMoreThan(n / 16, k - 1);
    }
  }

  lemma {:induction false} HexNumberOfDigits(n: nat)
    ensures HexNumber(HexDigits(n)) == n
  {
    if n >= 16 {
      HexNumberOfDigits(n / 16);
      var s := HexDigits(n);
      assert s[..|s| - 1] == HexDigits(n / 16);
    }
  }

  lemma {:induction false} DecodeHexValue(s: string)
    requires AllHex(s) && |s| % 2 == 0
    ensures BigEndian(DecodeHex(s)) == HexNumber(s)
  {
    if s != [] {
      var p := s[..|s| - 2];
      DecodeHexValue(p);
      var d := DecodeHex(s);
      assert d[..|d| - 1] == DecodeHex(p);
      assert s[..|s| - 1][..|s| - 2] == p;
    }
  }

  /** Two byte strings of the same length with the same number are equal. */
  lemma {:induction false} BigEndianInjective(s: seq<Byte>, t: seq<Byte>)
    requires |s| == |t| && BigEndian(s) == BigEndian(t)
    ensures s == t
  {
    if s != [] {
      var n := |s|;
      assert s[n - 1] == BigEndian(s) % 256;
      assert t[n - 1] == BigEndian(t) % 256;
      BigEndianInjective(s[..n - 1], t[..n - 1]);
      assert s == s[..n - 1] + [s[n - 1]];
      assert t == t[..n - 1] + [t[n - 1]];
    }
  }

  lemma Shift256(x: int, p: int, y: int, l: int)
    ensures (x * p + y) * 256 + l == x * (256 * p) + (y * 256 + l)
  {
  }

  /** The number of a concatenation: the left part shifted by the length of
      the right part, plus the right part. */
  lemma {:induction false} BigEndianAppend(a: seq<Byte>, b: seq<Byte>)
    ensures BigEndian(a + b) == BigEndian(a) * Pow256(|b|) + BigEndian(b)
  {
    if b != [] {
      var b' := b[..|b| - 1];
      BigEndianAppend(a, b');
      assert (a + b)[..|a + b| - 1] == a + b';
      assert BigEndian(a + b) == BigEndian(a + b') * 256 + b[|b| - 1];
      Shift256(BigEndian(a), Pow256(|b'|), BigEndian(b'), b[|b| - 1]);
    } else {
      assert a + b == a;
    }
  }

  /** `int(from_int(x)) == x` for every x with exactly 24 hex digits, and the
      id built is a server id. */
  lemma FromIntExact(x: int)
    requires Pow16(23) <= x < Pow16(24)
    ensures FromInt(x).Success?
    ensures Int(FromInt(x).value) == x && !FromInt(x).value.client
  {
    var text := HexText(x);
    assert text == HexDigits(x);
    HexDigitsLength(x, 24);
    EvenLength(text);
    HexNumberOfDigits(x);
    DecodeHexValue(text);
  }

  /** Stated apart so that `% 2` is not taken in a context holding 16^24. */
  lemma EvenLength(s: string)
    requires |s| == 24
    ensures |s| % 2 == 0
  {
  }

  /** from_int does not pad: every non-negative number below 16^23 whose text
      is not exactly 12 digits long is refused. */
  lemma FromIntUnpaddedRefused(x: int)
    requires 0 <= x < Pow16(23) && !(Pow16(11) <= x < Pow16(12))
    ensures FromInt(x) == Failure(InvalidId)
  {
    UnpaddedLength(x);
  }

  /** Such a number has neither 12 nor 24 hex digits. */
  lemma UnpaddedLength(x: int)
    requires 0 <= x < Pow16(23) && !(Pow16(11) <= x < Pow16(12))
    ensures |HexText(x)| != 12 && |HexText(x)| != 24
  {
    if x < Pow16(11) {
      ShortLength(x);
    } else {
      LongLength(x);
    }
  }

  lemma ShortLength(x: nat)
    requires x < Pow16(11)
    ensures |HexText(x)| <= 11
  {
    if x >= 16 {
      HexDigitsAtMost(x, 11);
    }
  }

  lemma LongLength(x: nat)
    requires Pow16(12) <= x < Pow16(23)
    ensures 12 < |HexText(x)| <= 23
  {
    HexDigitsAtMost(x, 23);
    HexDigitsMoreThan(x, 12);
  }

  lemma MulMono(a: int, b: int, c: int)
    requires a <= b && c >= 0
    ensures a * c <= b * c
  {
  }

  /** ...and a number with exactly 12 hex digits comes back as the id whose raw
      bytes are the codes of those 12 characters, which is a different number. */
  lemma FromIntTwelveDigitsWrong(x: int)
    requires Pow16(11) <= x < Pow16(12)
    ensures FromInt(x).Success?
    ensures Int(FromInt(x).value) != x
  {
    HexDigitsLength(x, 12);
    var o := FromInt(x).value;
    assert o.bytes[0] >= 48 by {
      assert IsHexChar(HexText(x)[0]);
    }
    BigEndianAppend(o.bytes[..1], o.bytes[1..]);
    assert o.bytes[..1] + o.bytes[1..] == o.bytes;
    assert BigEndian(o.bytes[..1]) == o.bytes[0] by {
      assert o.bytes[..1][..0] == [];
    }
    var w := Pow256(11);
    assert Int(o) >= o.bytes[0] * w;
    MulMono(48, o.bytes[0], w);
    Pow16Pow256(6);
    Pow256Monotone(6, 11);
    assert x < w;
  }

  /** `a + (b - a) == b` whenever b has 24 hex digits. */
  lemma AddSubRoundTrip(a: ObjectId, b: ObjectId)
    requires Pow16(23) <= Int(b)
    ensures Add(a, Sub(b, a)) == Success(ObjectId(b.bytes, false))
  {
    assert Int(a) + Sub(b, a) == Int(b);
    Pow16Pow256(12);
    var r := Add(a, Sub(b, a));
    assert r.Success? && Int(r.value) == Int(b) && !r.value.client;
    BigEndianInjective(r.value.bytes, b.bytes);
  }

  /** The split point `min + (max - min) / divisions` of a chunk whose bounds
      are ids of 24 hex digits is the id of the integer split point. */
  lemma SplitPointAgrees(a: ObjectId, b: ObjectId, d: int)
    requires Pow16(23) <= Int(a) < Int(b) && d >= 2
    ensures Add(a, Sub(b, a) / d).Success?
    ensures Int(Add(a, Sub(b, a) / d).value) == Int(a) + (Int(b) - Int(a)) / d
  {
    SplitPointDigits(a, b, d);
  }

  /** The split point of two ids of 24 hex digits has 24 hex digits. */
  lemma SplitPointDigits(a: ObjectId, b: ObjectId, d: int)
    requires Pow16(23) <= Int(a) < Int(b) && d >= 2
    ensures Sub(b, a) / d == (Int(b) - Int(a)) / d
    ensures Pow16(23) <= Int(a) + Sub(b, a) / d < Pow16(24)
  {
    var w := Int(b) - Int(a);
    assert Sub(b, a) == w;
    ShareBelow(w, d);
    Pow16Pow256(12);
  }

  /** A share `w / d` of a positive width, for d >= 2, is below the width. */
  lemma ShareBelow(w: int, d: int)
    requires w > 0 && d >= 2
    ensures 0 <= w / d < w
  {
  }

  /** So `from_int(int(o))` does not give o back for any id o whose number
      has fewer than 24 hex digits (its first byte is below 0x10). */
  lemma FromIntLosesSmallIds(o: ObjectId)
    requires Int(o) < Pow16(23)
    ensures FromInt(Int(o)) != Success(ObjectId(o.bytes, false))
  {
    var x := Int(o);
    if Pow16(11) <= x < Pow16(12) {
      FromIntTwelveDigitsWrong(x);
    } else {
      FromIntUnpaddedRefused(x);
    }
  }

  /** n '0' characters. */
  function ZeroText(n: nat): (r: string)
    ensures |r| == n && AllHex(r)
    ensures HexNumber(r) == 0
  {
    if n == 0 then [] else
      var r := ZeroText(n - 1) + ['0'];
      assert r[..n - 1] == ZeroText(n - 1);
      r
  }

  /** Leading zeros do not change the number of a hex text. */
  lemma {:induction false} HexNumberLeadingZeros(n: nat, s: string)
    requires AllHex(s)
    ensures HexNumber(ZeroText(n) + s) == HexNumber(s)
  {
    if s != [] {
      var t := ZeroText(n) + s;
      assert t[..|t| - 1] == ZeroText(n) + s[..|s| - 1];
      HexNumberLeadingZeros(n, s[..|s| - 1]);
    } else {
      assert ZeroText(n) + s == ZeroText(n);
    }
  }

  /** The hex digits of x padded with zeros to 24 characters, as
      `'%024x' % x` writes them. */
  function PaddedHex(x: nat): (r: string)
    requires x < Pow16(24)
    ensures |r| == 24 && AllHex(r)
  {
    HexDigitsAtMost(x, 24);
    ZeroText(24 - |HexDigits(x)|) + HexDigits(x)
  }

  /** from_int as evidently intended: the id of the padded text, so that
      every number of 12 bytes is accepted. */
  function FromIntPadded(x: int): Result<ObjectId, IdError>
  {
    if 0 <= x < Pow256(12) then
      Pow16Pow256(12);
      Success(ObjectId(DecodeHex(PaddedHex(x)), false))
    else Failure(InvalidId)
  }

  /** The padded conversion accepts exactly the numbers of 12 bytes, and
      gives back each of them. */
  lemma FromIntPaddedExact(x: int)
    ensures FromIntPadded(x).Success? <==> 0 <= x < Pow256(12)
    ensures FromIntPadded(x).Success? ==> Int(FromIntPadded(x).value) == x && !FromIntPadded(x).value.client
  {
    if 0 <= x < Pow256(12) {
      Pow16Pow256(12);
      var text := PaddedHex(x);
      HexDigitsAtMost(x, 24);
      EvenLength(text);
      DecodeHexValue(text);
      HexNumberLeadingZeros(24 - |HexDigits(x)|, HexDigits(x));
      HexNumberOfDigits(x);
    }
  }

  /** `a + other` with the padded conversion. */
  function AddPadded(a: ObjectId, other: int): Result<ObjectId, IdError>
  {
    FromIntPadded(Int(a) + other)
  }

  /** With the padded conversion, `a + (b - a) == b` for all ids. */
  lemma AddSubPaddedRoundTrip(a: ObjectId, b: ObjectId)
    ensures AddPadded(a, Sub(b, a)) == Success(ObjectId(b.bytes, false))
  {
    var x := Int(b);
    assert AddPadded(a, Sub(b, a)) == FromIntPadded(x);
    FromIntPaddedExact(x);
    var o := FromIntPadded(x).value;
    BigEndianInjective(o.bytes, b.bytes);
  }

  // ---------------------------------------------------------------------------
  // Timestamps

  function Zeros(n: nat): (r: seq<Byte>)
    ensures |r| == n
  {
    seq(n, _ => 0)
  }

  function Ones(n: nat): (r: seq<Byte>)
    ensures |r| == n
  {
    seq(n, _ => 255)
  }

  /** bson's `ObjectId.from_datetime`: the seconds in 4 big-endian bytes, then
      8 zero bytes. */
  function TimestampId(t: Seconds): ObjectId
  {
    ObjectId([t / 0x100_0000, (t / 0x1_0000) % 256, (t / 256) % 256, t % 256] + Zeros(8), false)
  }

  /** `from_datetime(t, min=..., max=...)`. Asking for both directions fails the
      assertion; otherwise the timestamp id keeps its first two bytes and the
      other ten are filled with 0x00 (min) or 0xff (max). */
  function FromDatetime(t: Seconds, min: bool, max: bool): (r: Result<ObjectId, IdError>)
    ensures r.Failure? <==> min && max
    ensures r.Failure? ==> r.error == BothMinAndMax
    ensures r.Success? ==> !r.value.client
  {
    if min && max then Failure(BothMinAndMax)
    else
      var oid := TimestampId(t);
      if min || max then Success(ObjectId(oid.bytes[..2] + (if min then Zeros(10) else Ones(10)), false))
      else Success(oid)
  }

  /** The first id of t's 2-byte prefix. */
  function KeyMin(t: Seconds): ObjectId
  {
    FromDatetime(t, true, false).value
  }

  /** The last id of t's 2-byte prefix. */
  function KeyMax(t: Seconds): ObjectId
  {
    FromDatetime(t, false, true).value
  }

  lemma BigEndianZeros(n: nat)
    ensures BigEndian(Zeros(n)) == 0
  {
    if n > 0 {
      BigEndianZeros(n - 1);
      assert Zeros(n)[..n - 1] == Zeros(n - 1);
    }
  }

  lemma BigEndianOnes(n: nat)
    ensures BigEndian(Ones(n)) == Pow256(n) - 1
  {
    if n > 0 {
      BigEndianOnes(n - 1);
      assert Ones(n)[..n - 1] == Ones(n - 1);
    }
  }

  /** The first two bytes of a timestamp id are the seconds divided by 2^16. */
  lemma PrefixValue(t: Seconds)
    ensures BigEndian(TimestampId(t).bytes[..2]) == t / 0x1_0000
  {
    var p := TimestampId(t).bytes[..2];
    assert p[..1][..0] == [];
    assert BigEndian(p) == (t / 0x100_0000) * 256 + (t / 0x1_0000) % 256;
  }

  /** The first four bytes of a timestamp id read back as the seconds, and the
      other eight are zero. */
  lemma TimestampBytes(t: Seconds)
    ensures BigEndian(TimestampId(t).bytes[..4]) == t
    ensures TimestampId(t).bytes[4..] == Zeros(8)
  {
    var b := TimestampId(t).bytes;
    PrefixValue(t);
    assert b[..4][..3] == b[..3] && b[..3][..2] == b[..2];
    assert BigEndian(b[..3]) == (t / 0x1_0000) * 256 + (t / 256) % 256;
    assert BigEndian(b[..4]) == ((t / 0x1_0000) * 256 + (t / 256) % 256) * 256 + t % 256;
    DigitsOfSeconds(t);
  }

  lemma DigitsOfSeconds(t: Seconds)
    ensures ((t / 0x1_0000) * 256 + (t / 256) % 256) * 256 + t % 256 == t
  {
    var h := t / 256;
    assert h == (h / 256) * 256 + h % 256;
    assert h / 256 == t / 0x1_0000;
  }

  /** The number of a min-rounded key: the 16-bit prefix t / 2^16 followed by
      ten zero bytes. */
  lemma KeyMinValue(t: Seconds)
    ensures Int(KeyMin(t)) == (t / 0x1_0000) * Width10
  {
    var p := TimestampId(t).bytes[..2];
    BigEndianAppend(p, Zeros(10));
    BigEndianZeros(10);
    PrefixValue(t);
    Pow256Ten();
  }

  /** The number of a max-rounded key: the same prefix followed by ten 0xff bytes. */
  lemma KeyMaxValue(t: Seconds)
    ensures Int(KeyMax(t)) == (t / 0x1_0000) * Width10 + Width10 - 1
  {
    var p := TimestampId(t).bytes[..2];
    BigEndianAppend(p, Ones(10));
    BigEndianOnes(10);
    PrefixValue(t);
    Pow256Ten();
  }

  /** A min-rounded key is the first id of its 2-byte prefix, a max-rounded key
      the last one. */
  lemma KeysAligned(t: Seconds)
    ensures Int(KeyMin(t)) % Width10 == 0
    ensures Int(KeyMax(t)) % Width10 == Width10 - 1
  {
    KeyMinValue(t);
    KeyMaxValue(t);
    PrefixMultiple(t / 0x1_0000);
  }

  lemma PrefixMultiple(p: nat)
    ensures (p * Width10) % Width10 == 0
    ensures (p * Width10 + Width10 - 1) % Width10 == Width10 - 1
  {
  }

  /** For the same instant the min-rounded key lies below the max-rounded one. */
  lemma KeyMinBelowKeyMax(t: Seconds)
    ensures Less(KeyMin(t), KeyMax(t))
  {
    KeyMinValue(t);
    KeyMaxValue(t);
  }

  /** Min-rounded keys follow the order of the timestamps. */
  lemma KeyMinMonotone(t1: Seconds, t2: Seconds)
    requires t1 <= t2
    ensures Int(KeyMin(t1)) <= Int(KeyMin(t2))
  {
    KeyMinValue(t1);
    KeyMinValue(t2);
    assert t1 / 0x1_0000 <= t2 / 0x1_0000;
  }

  /** Every min-rounded key of an earlier or equal instant lies below the
      max-rounded key of a later one. */
  lemma KeyMinBelowLaterKeyMax(t1: Seconds, t2: Seconds)
    requires t1 <= t2
    ensures Less(KeyMin(t1), KeyMax(t2))
  {
    KeyMinMonotone(t1, t2);
    KeyMinBelowKeyMax(t2);
  }
}
