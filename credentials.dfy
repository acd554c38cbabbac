/**
 * The stored password format and its check.  `hashPassword` derives a 64-byte
 * key from the password and a salt with scrypt and stores
 * `<key as hex>.<salt as hex>`; `comparePasswords` splits the stored string on
 * ".", derives a key from the candidate and the stored salt, and compares the
 * two keys.  scrypt is a parameter (`Kdf`): any deterministic function that
 * yields 64 bytes.  The 16 random salt bytes are a parameter too.
 */
module Credentials {
  import opened Wrappers

  type Byte = b: int | 0 <= b < 256

  /** What `scrypt(password, salt, 64)` yields. */
  type Key = k: seq<Byte> | |k| == 64 witness seq(64, _ => 0)

  /** What `randomBytes(16)` yields. */
  type Salt = s: seq<Byte> | |s| == 16 witness seq(16, _ => 0)

  /** scrypt with a 64-byte output, from (password, salt string) to the derived key. */
  type Kdf = (string, string) -> Key

  /** The errors the compare step can throw. */
  datatype CryptoError =
    | SaltMissing     // the stored string has no "."; scrypt is called with an undefined salt
    | LengthMismatch  // timingSafeEqual on buffers of different byte lengths

  const HexDigits: string := "0123456789abcdef"

  /** The separator between key and salt in a stored hash. */
  const Separator: char := '.'

  /** A digit `toString("hex")` writes. */
  predicate IsLowerHexDigit(c: char) {
    '0' <= c <= '9' || 'a' <= c <= 'f'
  }

  /** A character `Buffer.from(_, "hex")` accepts: either case. */
  predicate IsHexChar(c: char) {
    '0' <= c <= '9' || 'a' <= c <= 'f' || 'A' <= c <= 'F'
  }

  function HexValue(c: char): (n: int)
    requires IsHexChar(c)
    ensures 0 <= n < 16
  {
    if '0' <= c <= '9' then c as int - '0' as int
    else if 'a' <= c <= 'f' then c as int - 'a' as int + 10
    else c as int - 'A' as int + 10
  }

  /** A digit of `HexDigits` is a hex character and stands for its own position. */
  lemma HexDigitValue(n: int)
    requires 0 <= n < 16
    ensures IsLowerHexDigit(HexDigits[n]) && IsHexChar(HexDigits[n]) && HexValue(HexDigits[n]) == n
  {
  }

  /** `buf.toString("hex")`: two lower-case hex digits per byte, high nibble first. */
  function Hex(bs: seq<Byte>): (s: string)
    ensures |s| == 2 * |bs|
    ensures forall i :: 0 <= i < |s| ==> IsLowerHexDigit(s[i])
  {
    if bs == [] then ""
    else [HexDigits[bs[0] / 16], HexDigits[bs[0] % 16]] + Hex(bs[1..])
  }

  /**
   * `Buffer.from(s, "hex")`: decodes pairs of hex characters from the left and
   * stops at the first pair that is not one; an odd last character is dropped.
   */
  function FromHex(s: string): (bs: seq<Byte>)
    ensures 2 * |bs| <= |s|
    decreases |s|
  {
    if |s| < 2 || !IsHexChar(s[0]) || !IsHexChar(s[1]) then []
    else [HexValue(s[0]) * 16 + HexValue(s[1])] + FromHex(s[2..])
  }

  /** The pair of hex characters at positions `2 * i` and `2 * i + 1` of `s`, read as a byte. */
  predicate PairDecodesTo(s: string, i: int, b: int)
    requires 0 <= i && 2 * i + 1 < |s|
  {
    IsHexChar(s[2 * i]) && IsHexChar(s[2 * i + 1]) && b == HexValue(s[2 * i]) * 16 + HexValue(s[2 * i + 1])
  }

  /**
   * Decoding reads byte `i` from the pair at positions `2 * i` and `2 * i + 1`,
   * and stops at the first pair that is not two hex characters, or when fewer
   * than two characters are left.
   */
  lemma {:induction false} FromHexDecodesPairs(s: string)
    ensures forall i :: 0 <= i < |FromHex(s)| ==> PairDecodesTo(s, i, FromHex(s)[i])
    ensures 2 * |FromHex(s)| + 1 < |s| ==>
      !(IsHexChar(s[2 * |FromHex(s)|]) && IsHexChar(s[2 * |FromHex(s)| + 1]))
    decreases |s|
  {
    if 2 <= |s| && IsHexChar(s[0]) && IsHexChar(s[1]) {
      var t := s[2..];
      FromHexDecodesPairs(t);
      var bs := FromHex(s);
      assert bs == [HexValue(s[0]) * 16 + HexValue(s[1])] + FromHex(t);
      forall i | 1 <= i < |bs| ensures PairDecodesTo(s, i, bs[i]) {
        assert PairDecodesTo(t, i - 1, FromHex(t)[i - 1]);
        assert t[2 * (i - 1)] == s[2 * i] && t[2 * (i - 1) + 1] == s[2 * i + 1];
      }
      if 2 * |bs| + 1 < |s| {
        assert t[2 * |FromHex(t)|] == s[2 * |bs|] && t[2 * |FromHex(t)| + 1] == s[2 * |bs| + 1];
      }
    }
  }

  /** The two digits `Hex` writes for a byte are hex characters that decode to it. */
  lemma ByteDigits(b: Byte)
    ensures IsHexChar(HexDigits[b / 16]) && IsHexChar(HexDigits[b % 16])
    ensures HexValue(HexDigits[b / 16]) * 16 + HexValue(HexDigits[b % 16]) == b
  {
    HexDigitValue(b / 16);
    HexDigitValue(b % 16);
  }

  /** Decoding the hex encoding gives back the bytes. */
  lemma {:induction false} FromHexOfHex(bs: seq<Byte>)
    ensures FromHex(Hex(bs)) == bs
  {
    if bs != [] {
      var b := bs[0];
      ByteDigits(b);
      var s := Hex(bs);
      assert s == [HexDigits[b / 16], HexDigits[b % 16]] + Hex(bs[1..]);
      assert s[0] == HexDigits[b / 16] && s[1] == HexDigits[b % 16];
      assert s[2..] == Hex(bs[1..]);
      FromHexOfHex(bs[1..]);
      assert FromHex(s) == [b] + bs[1..];
    }
  }

  /** The inverse of `Split`: the parts with one separator between neighbours. */
  function Join(parts: seq<string>, sep: char): string
    requires |parts| >= 1
  {
    if |parts| == 1 then parts[0] else parts[0] + [sep] + Join(parts[1..], sep)
  }

  /**
   * `s.split(sep)` with a one-character separator: the maximal runs between
   * separators, at least one (possibly empty) part.
   */
  function Split(s: string, sep: char): (parts: seq<string>)
    ensures |parts| >= 1
    ensures forall i :: 0 <= i < |parts| ==> sep !in parts[i]
    ensures Join(parts, sep) == s
  {
    if s == [] then [""]
    else
      var rest := Split(s[1..], sep);
      if s[0] == sep then
        assert Join([""] + rest, sep) == [sep] + Join(rest, sep) by {
          assert ([""] + rest)[1..] == rest;
        }
        [""] + rest
      else
        var parts := [[s[0]] + rest[0]] + rest[1..];
        assert Join(parts, sep) == [s[0]] + Join(rest, sep) by {
          if |rest| > 1 {
            assert parts[1..] == rest[1..];
          }
        }
        parts
  }

  /** A text without the separator glued in front keeps the rest of the split. */
  lemma {:induction false} SplitWithPrefix(p: string, t: string, sep: char)
    requires sep !in p
    ensures Split(p + t, sep) == [p + Split(t, sep)[0]] + Split(t, sep)[1..]
  {
    var st := Split(t, sep);
    if p == [] {
      assert p + t == t && p + st[0] == st[0];
      assert st == [st[0]] + st[1..];
    } else {
      assert (p + t)[0] == p[0] && (p + t)[1..] == p[1..] + t;
      SplitWithPrefix(p[1..], t, sep);
      var rest := Split(p[1..] + t, sep);
      assert rest == [p[1..] + st[0]] + st[1..];
      assert Split(p + t, sep) == [[p[0]] + rest[0]] + rest[1..];
      assert [p[0]] + (p[1..] + st[0]) == p + st[0];
    }
  }

  /** Splitting a join of separator-free parts gives back the parts. */
  lemma {:induction false} SplitOfJoin(parts: seq<string>, sep: char)
    requires |parts| >= 1
    requires forall i :: 0 <= i < |parts| ==> sep !in parts[i]
    ensures Split(Join(parts, sep), sep) == parts
  {
    if |parts| == 1 {
      SplitWithPrefix(parts[0], "", sep);
      assert parts[0] + "" == parts[0];
    } else {
      var tail := Join(parts[1..], sep);
      forall i | 0 <= i < |parts[1..]| ensures sep !in parts[1..][i] {
        assert parts[1..][i] == parts[i + 1];
      }
      SplitOfJoin(parts[1..], sep);
      var t := [sep] + tail;
      assert t[0] == sep && t[1..] == tail;
      assert Split(t, sep) == [""] + parts[1..];
      assert parts[0] + [sep] + tail == parts[0] + t;
      SplitWithPrefix(parts[0], t, sep);
      assert parts[0] + "" == parts[0];
      assert parts == [parts[0]] + parts[1..];
    }
  }

  /** `hashPassword(password)` with the salt bytes `salt`. */
  function HashPassword(password: string, salt: Salt, kdf: Kdf): (h: string)
    ensures |h| == 161 && h[128] == Separator
    ensures forall i :: 0 <= i < |h| && i != 128 ==> IsLowerHexDigit(h[i])
    ensures h[129..] == Hex(salt)
  {
    var saltHex := Hex(salt);
    Hex(kdf(password, saltHex)) + [Separator] + saltHex
  }

  /**
   * A stored hash is a 128-digit key, ".", and a 32-digit salt; splitting it
   * on "." gives exactly those two parts back, and the key part decodes to the
   * derived key.
   */
  lemma HashPasswordFormat(password: string, salt: Salt, kdf: Kdf)
    ensures var parts := Split(HashPassword(password, salt, kdf), Separator);
      && parts == [Hex(kdf(password, Hex(salt))), Hex(salt)]
      && |parts[0]| == 128 && |parts[1]| == 32
      && FromHex(parts[0]) == kdf(password, parts[1])
  {
    var keyHex, saltHex := Hex(kdf(password, Hex(salt))), Hex(salt);
    assert Join([keyHex, saltHex], Separator) == HashPassword(password, salt, kdf);
    SplitOfJoin([keyHex, saltHex], Separator);
    FromHexOfHex(kdf(password, Hex(salt)));
  }

  /** `timingSafeEqual(a, b)`: throws on buffers of different lengths, else byte equality. */
  function TimingSafeEqual(a: seq<Byte>, b: seq<Byte>): (r: Result<bool, CryptoError>)
    ensures r.Failure? <==> |a| != |b|
    ensures r.Success? ==> (r.value <==> a == b)
  {
    if |a| != |b| then Failure(LengthMismatch) else Success(a == b)
  }

  /** `comparePasswords(supplied, stored)`: true, false, or the error thrown. */
  function ComparePasswords(supplied: string, stored: string, kdf: Kdf): (r: Result<bool, CryptoError>)
    ensures Separator !in stored <==> r == Failure(SaltMissing)
    ensures Separator in stored ==>
      (r == Failure(LengthMismatch) <==> |FromHex(Split(stored, Separator)[0])| != 64)
    ensures r.Success? ==> exists keyHex, salt, more ::
      && stored == keyHex + [Separator] + salt + more
      && Separator !in keyHex && Separator !in salt
      && (more == [] || more[0] == Separator)
      && (r.value <==> FromHex(keyHex) == kdf(supplied, salt))
  {
    var parts := Split(stored, Separator);
    if |parts| < 2 then Failure(SaltMissing)
    else
      var keyHex, salt := parts[0], parts[1];
      var r := TimingSafeEqual(FromHex(keyHex), kdf(supplied, salt));
      var more := if |parts| == 2 then "" else [Separator] + Join(parts[2..], Separator);
      assert Join(parts[1..], Separator) == salt + more by {
        if |parts| > 2 {
          assert parts[1..][1..] == parts[2..];
        }
      }
      assert stored == keyHex + [Separator] + salt + more;
      assert more == [] || more[0] == Separator;
      r
  }

  /**
   * Against a stored hash of `password`, the comparison of `supplied` never
   * throws and answers exactly whether scrypt gives both the same key under
   * the stored salt.
   */
  lemma {:induction false} CompareAgainstHash(supplied: string, password: string, salt: Salt, kdf: Kdf)
    ensures ComparePasswords(supplied, HashPassword(password, salt, kdf), kdf) ==
      Success(kdf(supplied, Hex(salt)) == kdf(password, Hex(salt)))
  {
    HashPasswordFormat(password, salt, kdf);
  }

  /** The password a hash was made from is accepted by it. */
  lemma CompareAcceptsOwnHash(password: string, salt: Salt, kdf: Kdf)
    ensures ComparePasswords(password, HashPassword(password, salt, kdf), kdf) == Success(true)
  {
    CompareAgainstHash(password, password, salt, kdf);
  }

  /** A password that scrypt maps to a different key under the stored salt is refused. */
  lemma CompareRefusesOtherKey(supplied: string, password: string, salt: Salt, kdf: Kdf)
    requires kdf(supplied, Hex(salt)) != kdf(password, Hex(salt))
    ensures ComparePasswords(supplied, HashPassword(password, salt, kdf), kdf) == Success(false)
  {
    CompareAgainstHash(supplied, password, salt, kdf);
  }
}
