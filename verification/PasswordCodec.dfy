// The password obfuscation of the session store: encryption with random padding, decryption,
// and what decryption returns for every key.

module Bytes {

  type Byte = bv8

  lemma {:induction false} NextByte(b: Byte)
    requires b != 0xFF
    ensures (b + 1) as int == b as int + 1
  {
  }

  lemma {:induction false} ByteFor(n: nat) returns (b: Byte)
    requires n < 256
    ensures b as int == n
    decreases n
  {
    if n == 0 {
      b := 0;
    } else {
      b := ByteFor(n - 1);
      NextByte(b);
      b := b + 1;
    }
  }

  lemma {:induction false} SameByte(b: Byte)
    ensures (b as int) as Byte == b
  {
  }

  lemma {:induction false} SmallByte(n: nat)
    requires n < 256
    ensures (n as Byte) as int == n
  {
    var b := ByteFor(n);
    SameByte(b);
  }
}

module PasswordCodec {
  import opened Bytes

  const MAXLEN := 50  // PWALG_SIMPLE_MAXLEN
  const FLAG: Byte := 0xFF
  const INTERNAL: Byte := 0x00

  // ----- One byte -----

  /** (unsigned char)(~c ^ 0xA3), used in both directions. */
  function Scramble(c: Byte): Byte {
    !c ^ 0xA3
  }

  /** PWALG_SIMPLE_STRING[n]. */
  function HexAt(n: Byte): char {
    if n == 0 then '0' else if n == 1 then '1' else if n == 2 then '2' else if n == 3 then '3'
    else if n == 4 then '4' else if n == 5 then '5' else if n == 6 then '6' else if n == 7 then '7'
    else if n == 8 then '8' else if n == 9 then '9' else if n == 10 then 'A' else if n == 11 then 'B'
    else if n == 12 then 'C' else if n == 13 then 'D' else if n == 14 then 'E' else 'F'
  }

  /** PWALG_SIMPLE_STRING.find(ch), reduced to a byte: a miss is npos, whose low byte is 255. */
  function FindHex(ch: char): Byte {
    if ch == '0' then 0 else if ch == '1' then 1 else if ch == '2' then 2 else if ch == '3' then 3
    else if ch == '4' then 4 else if ch == '5' then 5 else if ch == '6' then 6 else if ch == '7' then 7
    else if ch == '8' then 8 else if ch == '9' then 9 else if ch == 'A' then 10 else if ch == 'B' then 11
    else if ch == 'C' then 12 else if ch == 'D' then 13 else if ch == 'E' then 14 else if ch == 'F' then 15
    else 0xFF
  }

  function EncryptChar(c: Byte): (s: string)
    ensures |s| == 2
  {
    var x := Scramble(c);
    [HexAt((x & 0xF0) >> 4), HexAt(x & 0x0F)]
  }

  /** The byte SimpleDecryptNextChar returns; a lone last digit is paired with the terminating NUL. */
  function NextChar(s: string): Byte {
    if s == "" then 0
    else Scramble((FindHex(s[0]) << 4) + FindHex(if |s| > 1 then s[1] else '\0'))
  }

  /** The string it leaves behind. */
  function Tail(s: string): string {
    if |s| <= 2 then "" else s[2..]
  }

  lemma {:induction false} NibbleFound(n: Byte)
    requires n <= 15
    ensures FindHex(HexAt(n)) == n
  {
  }

  lemma {:induction false} HexDigits(x: Byte)
    ensures (FindHex(HexAt((x & 0xF0) >> 4)) << 4) + FindHex(HexAt(x & 0x0F)) == x
  {
    NibbleFound((x & 0xF0) >> 4);
    NibbleFound(x & 0x0F);
  }

  lemma {:induction false} ScrambleTwice(c: Byte)
    ensures Scramble(Scramble(c)) == c
  {
  }

  lemma {:induction false} ByteDecrypts(c: Byte)
    ensures var s := EncryptChar(c); Scramble((FindHex(s[0]) << 4) + FindHex(s[1])) == c
  {
    HexDigits(Scramble(c));
    ScrambleTwice(c);
  }

  lemma {:induction false} TailOfTwo(digits: string, rest: string)
    requires |digits| == 2
    ensures Tail(digits + rest) == rest
  {
    if rest != "" {
      assert (digits + rest)[2..] == rest;
    }
  }

  lemma {:induction false} NextCharDecrypts(c: Byte, rest: string)
    ensures NextChar(EncryptChar(c) + rest) == c && Tail(EncryptChar(c) + rest) == rest
  {
    ByteDecrypts(c);
    var s := EncryptChar(c) + rest;
    assert s[0] == EncryptChar(c)[0] && s[1] == EncryptChar(c)[1];
    TailOfTwo(EncryptChar(c), rest);
  }

  const DIGITS := "0123456789ABCDEF"  // PWALG_SIMPLE_STRING

  lemma {:induction false} DigitAt(n: Byte)
    requires n <= 15
    ensures HexAt(n) == DIGITS[n as int]
  {
  }

  /** A byte is stored as the two hexadecimal digits of its exclusive or with 0x5C. */
  lemma {:induction false} StoredDigits(c: Byte)
    ensures EncryptChar(c) == [DIGITS[((c ^ 0x5C) >> 4) as int], DIGITS[((c ^ 0x5C) & 0x0F) as int]]
  {
    assert Scramble(c) == c ^ 0x5C;
    assert ((c ^ 0x5C) & 0xF0) >> 4 == (c ^ 0x5C) >> 4;
    DigitAt((c ^ 0x5C) >> 4);
    DigitAt((c ^ 0x5C) & 0x0F);
  }

  /** Reading a digit: its place in the row of digits, or 0xFF for anything else. */
  lemma {:induction false} FindHexIff(ch: char, n: nat)
    requires n < 16
    ensures FindHex(ch) as int == n <==> DIGITS[n] == ch
    ensures ch !in DIGITS ==> FindHex(ch) == 0xFF
  {
  }

  // ----- Strings of bytes -----

  function EncryptAll(bytes: seq<Byte>): string {
    if bytes == [] then "" else EncryptChar(bytes[0]) + EncryptAll(bytes[1..])
  }

  lemma {:induction false} EncryptConcat(a: seq<Byte>, b: seq<Byte>)
    ensures EncryptAll(a + b) == EncryptAll(a) + EncryptAll(b)
    decreases |a|
  {
    if a == [] {
      assert a + b == b;
    } else {
      EncryptConcat(a[1..], b);
      assert (a + b)[1..] == a[1..] + b;
      assert EncryptAll(a + b) == EncryptChar(a[0]) + (EncryptAll(a[1..]) + EncryptAll(b));
    }
  }

  lemma {:induction false} EncryptOne(c: Byte)
    ensures EncryptAll([c]) == EncryptChar(c)
  {
    assert [c][1..] == [];
    assert EncryptChar(c) + "" == EncryptChar(c);
  }

  lemma {:induction false} EncryptLength(bytes: seq<Byte>)
    ensures |EncryptAll(bytes)| == 2 * |bytes|
    decreases |bytes|
  {
    if bytes != [] {
      EncryptLength(bytes[1..]);
    }
  }

  /** The bytes that `n` calls of SimpleDecryptNextChar return. */
  function DecryptN(s: string, n: nat): (bytes: seq<Byte>)
    ensures |bytes| == n
    decreases n
  {
    if n == 0 then [] else [NextChar(s)] + DecryptN(Tail(s), n - 1)
  }

  function TailN(s: string, n: nat): string
    decreases n
  {
    if n == 0 then s else TailN(Tail(s), n - 1)
  }

  lemma {:induction false} DecryptsAll(bytes: seq<Byte>, n: nat)
    requires n <= |bytes|
    ensures DecryptN(EncryptAll(bytes), n) == bytes[..n]
    ensures TailN(EncryptAll(bytes), n) == EncryptAll(bytes[n..])
    decreases n
  {
    if n > 0 {
      NextCharDecrypts(bytes[0], EncryptAll(bytes[1..]));
      DecryptsAll(bytes[1..], n - 1);
      assert bytes[1..][n - 1..] == bytes[n..];
      assert bytes[..n] == [bytes[0]] + bytes[1..][..n - 1];
    } else {
      assert bytes[0..] == bytes;
    }
  }

  // ----- Encryption -----

  function Header(total: nat, shift: nat): seq<Byte>
    requires shift < 256
  {
    [FLAG, INTERNAL, (total % 256) as Byte, shift as Byte]
  }

  /** `s` is what encrypting may return, for some choice of the random padding. */
  ghost predicate Encrypted(s: string, password: seq<Byte>, key: seq<Byte>, pad: seq<Byte>, rest: seq<Byte>) {
    && |pad| < (if |key| + |password| < 50 then 50 - (|key| + |password|) else 1)
    && s == EncryptAll(Header(|key + password|, |pad|) + pad + (key + password) + rest)
  }

  lemma {:induction false} HeaderEncrypted(head: seq<Byte>)
    requires |head| == 4
    ensures EncryptAll(head)
         == EncryptChar(head[0]) + EncryptChar(head[1]) + EncryptChar(head[2]) + EncryptChar(head[3])
  {
    assert head == [head[0]] + [head[1]] + [head[2]] + [head[3]];
    EncryptConcat([head[0]] + [head[1]] + [head[2]], [head[3]]);
    EncryptConcat([head[0]] + [head[1]], [head[2]]);
    EncryptConcat([head[0]], [head[1]]);
    EncryptOne(head[0]);
    EncryptOne(head[1]);
    EncryptOne(head[2]);
    EncryptOne(head[3]);
  }

  lemma {:induction false} EncryptAppend(bytes: seq<Byte>, c: Byte)
    ensures EncryptAll(bytes + [c]) == EncryptAll(bytes) + EncryptChar(c)
  {
    EncryptConcat(bytes, [c]);
    EncryptOne(c);
  }

  /** A loop that appends `n` encrypted random bytes. */
  method AppendRandom(s: string, n: nat, ghost bytes: seq<Byte>) returns (result: string, ghost bytes': seq<Byte>)
    requires s == EncryptAll(bytes)
    ensures result == EncryptAll(bytes') && bytes <= bytes' && |bytes'| == |bytes| + n
  {
    result, bytes' := s, bytes;
    for i := 0 to n
      invariant result == EncryptAll(bytes') && bytes <= bytes' && |bytes'| == |bytes| + i
    {
      var c: Byte := *;
      EncryptAppend(bytes', c);
      result := result + EncryptChar(c);
      bytes' := bytes' + [c];
    }
  }

  /** Flag, dummy, length, shift, and as many random bytes as the shift says. */
  method EncryptHead(total: nat) returns (result: string, ghost pad: seq<Byte>)
    ensures |pad| < (if total < 50 then 50 - total else 1) && result == EncryptAll(Header(total, |pad|) + pad)
  {
    var shift: nat := 0;
    if total < MAXLEN {
      var r: nat := *;
      shift := r % 256 % (MAXLEN - total);
    }
    assert shift < 256;
    var head := Header(total, shift);
    HeaderEncrypted(head);
    result := EncryptChar(head[0]) + EncryptChar(head[1]) + EncryptChar(head[2]) + EncryptChar(head[3]);
    ghost var bytes;
    result, bytes := AppendRandom(result, shift, head);
    pad := bytes[4..];
    assert bytes == head + pad;
  }

  /** Random bytes until the text has its minimal length. */
  method FillUp(s: string, ghost bytes: seq<Byte>) returns (result: string, ghost bytes': seq<Byte>)
    requires s == EncryptAll(bytes)
    ensures result == EncryptAll(bytes') && bytes <= bytes'
    ensures |result| == if |s| < 2 * MAXLEN then 2 * MAXLEN else |s|
  {
    result, bytes' := s, bytes;
    EncryptLength(bytes);
    while |result| < 2 * MAXLEN
      invariant result == EncryptAll(bytes') && bytes <= bytes' && |result| % 2 == 0
      invariant |result| == |s| || |s| < |result| <= 2 * MAXLEN
    {
      var c: Byte := *;
      EncryptAppend(bytes', c);
      result := result + EncryptChar(c);
      bytes' := bytes' + [c];
    }
  }

  method AppendBytes(s: string, all: seq<Byte>, ghost bytes: seq<Byte>) returns (result: string)
    requires s == EncryptAll(bytes)
    ensures result == EncryptAll(bytes + all)
  {
    result := s;
    assert bytes + all[..0] == bytes;
    for i := 0 to |all|
      invariant result == EncryptAll(bytes + all[..i])
    {
      EncryptAppend(bytes + all[..i], all[i]);
      assert bytes + all[..i + 1] == bytes + all[..i] + [all[i]];
      result := result + EncryptChar(all[i]);
    }
    assert all[..|all|] == all;
  }

  /** EncryptPassword; every `*` is a call of rand(). */
  method EncryptPassword(password: seq<Byte>, key: seq<Byte>) returns (result: string)
    ensures exists pad, rest :: Encrypted(result, password, key, pad, rest)
    ensures if |key| + |password| < 50 then 100 <= |result| <= 106 else |result| == 8 + 2 * (|key| + |password|)
    ensures |result| % 2 == 0
  {
    var all := key + password;
    ghost var pad, bytes;
    result, pad := EncryptHead(|all|);
    ghost var front := Header(|all|, |pad|) + pad;
    result := AppendBytes(result, all, front);
    EncryptLength(front + all);
    result, bytes := FillUp(result, front + all);
    EncryptLength(bytes);
    ghost var rest := bytes[|front + all|..];
    assert bytes == front + all + rest;
    assert Encrypted(result, password, key, pad, rest);
  }

  // ----- Decryption -----

  function Erase(s: string, n: nat): string {
    if n <= |s| then s[n..] else ""
  }

  /** Drops the key in front, or everything if the key is not there. */
  function StripKey(bytes: seq<Byte>, key: seq<Byte>): seq<Byte> {
    if key <= bytes then bytes[|key|..] else []
  }

  function Decrypt(s: string, key: seq<Byte>): seq<Byte> {
    var flag := NextChar(s);
    var s1 := if flag == FLAG then TailN(s, 2) else Tail(s);
    var length := if flag == FLAG then NextChar(s1) else flag;
    var s2 := if flag == FLAG then Tail(s1) else s1;
    var s3 := Erase(Tail(s2), 2 * (NextChar(s2) as int));
    var bytes := DecryptN(s3, length as int);
    if flag == FLAG then StripKey(bytes, key) else bytes
  }

  /** SimpleDecryptNextChar, which consumes what it reads. */
  method SimpleDecryptNextChar(s: string) returns (c: Byte, s': string)
    ensures c == NextChar(s) && s' == Tail(s)
  {
    if |s| > 0 {
      c := Scramble((FindHex(s[0]) << 4) + FindHex(if |s| > 1 then s[1] else '\0'));
      s' := if |s| >= 2 then s[2..] else "";
    } else {
      c, s' := 0x00, s;
    }
  }

  lemma {:induction false} DecryptOneMore(s: string, i: nat)
    ensures DecryptN(s, i + 1) == DecryptN(s, i) + [NextChar(TailN(s, i))]
    ensures TailN(s, i + 1) == Tail(TailN(s, i))
    decreases i
  {
    if i > 0 {
      DecryptOneMore(Tail(s), i - 1);
    }
  }

  method ReadBytes(s: string, n: nat) returns (bytes: seq<Byte>)
    ensures bytes == DecryptN(s, n)
  {
    bytes := [];
    var left := s;
    for i := 0 to n
      invariant bytes == DecryptN(s, i) && left == TailN(s, i)
    {
      DecryptOneMore(s, i);
      var c;
      c, left := SimpleDecryptNextChar(left);
      bytes := bytes + [c];
    }
  }

  method DecryptPassword(password: string, key: seq<Byte>) returns (result: seq<Byte>)
    ensures result == Decrypt(password, key)
  {
    var flag, s := SimpleDecryptNextChar(password);
    var length := flag;
    if flag == FLAG {
      var dummy;
      dummy, s := SimpleDecryptNextChar(s);
      assert s == TailN(password, 2);
      length, s := SimpleDecryptNextChar(s);
    }
    var skip;
    skip, s := SimpleDecryptNextChar(s);
    s := Erase(s, 2 * (skip as int));
    result := ReadBytes(s, length as int);
    if flag == FLAG {
      result := if |key| <= |result| && result[..|key|] == key then result[|key|..] else [];
    }
  }

  // ----- What comes out -----

  /** The header decrypts to its four bytes, and the padding is skipped. */
  lemma {:induction false} HeaderDecrypts(head: seq<Byte>, body: seq<Byte>)
    requires |head| == 4
    ensures var s := EncryptAll(head + body);
      && NextChar(s) == head[0] && NextChar(TailN(s, 2)) == head[2]
      && NextChar(Tail(TailN(s, 2))) == head[3] && Tail(Tail(TailN(s, 2))) == EncryptAll(body)
  {
    var bytes := head + body;
    var s := EncryptAll(bytes);
    DecryptsAll(bytes, 1);
    DecryptsAll(bytes, 2);
    DecryptsAll(bytes[2..], 1);
    DecryptsAll(bytes[3..], 1);
    assert DecryptN(s, 1)[0] == bytes[..1][0];
    assert DecryptN(EncryptAll(bytes[2..]), 1)[0] == bytes[2..][..1][0];
    assert DecryptN(EncryptAll(bytes[3..]), 1)[0] == bytes[3..][..1][0];
    assert TailN(s, 2) == EncryptAll(bytes[2..]);
    assert bytes[2..][1..] == bytes[3..] && bytes[3..][1..] == body;
    assert Tail(EncryptAll(bytes[2..])) == TailN(EncryptAll(bytes[2..]), 1);
    assert Tail(EncryptAll(bytes[3..])) == TailN(EncryptAll(bytes[3..]), 1);
  }

  lemma {:induction false} PaddingSkipped(pad: seq<Byte>, body: seq<Byte>)
    ensures Erase(EncryptAll(pad + body), 2 * |pad|) == EncryptAll(body)
  {
    EncryptConcat(pad, body);
    EncryptLength(pad);
  }

  lemma {:induction false} Regroup(a: seq<Byte>, b: seq<Byte>, c: seq<Byte>, d: seq<Byte>)
    ensures a + b + c + d == a + (b + (c + d))
  {
  }

  lemma {:induction false} DecryptsFirst(all: seq<Byte>, rest: seq<Byte>, n: nat)
    requires n <= |all|
    ensures DecryptN(EncryptAll(all + rest), n) == all[..n]
  {
    DecryptsAll(all + rest, n);
    assert (all + rest)[..n] == all[..n];
  }

  /** Flagged text is the length byte, the shift byte, the skipped part and the rest. */
  lemma {:induction false} DecryptParts(s: string, key: seq<Byte>, length: Byte, shift: Byte, s3: string)
    requires NextChar(s) == FLAG && NextChar(TailN(s, 2)) == length && NextChar(Tail(TailN(s, 2))) == shift
    requires Erase(Tail(Tail(TailN(s, 2))), 2 * (shift as int)) == s3
    ensures Decrypt(s, key) == StripKey(DecryptN(s3, length as int), key)
  {
  }

  /** For every random shift and padding, decrypting with any key returns what follows that key
      in the first (length mod 256) bytes of key and password, or nothing if the key is not there. */
  lemma {:induction false} DecryptEncrypted(s: string, password: seq<Byte>, key: seq<Byte>, pad: seq<Byte>,
      rest: seq<Byte>, key': seq<Byte>)
    requires Encrypted(s, password, key, pad, rest)
    ensures var all := key + password;
      Decrypt(s, key') == StripKey(all[..|all| % 256], key')
  {
    var all := key + password;
    var n := |all| % 256;
    var head := Header(|all|, |pad|);
    var body := all + rest;
    Regroup(head, pad, all, rest);
    HeaderDecrypts(head, pad + body);
    SmallByte(n);
    SmallByte(|pad|);
    PaddingSkipped(pad, body);
    DecryptsFirst(all, rest, n);
    DecryptParts(s, key', n as Byte, |pad| as Byte, EncryptAll(body));
  }

  lemma {:induction false} FirstDigits(head: seq<Byte>, more: seq<Byte>)
    requires |head| == 4 && head[0] == 0xFF && head[1] == 0x00
    ensures |EncryptAll(head + more)| >= 4 && EncryptAll(head + more)[..4] == "A35C"
  {
    EncryptConcat(head, more);
    HeaderEncrypted(head);
    StoredDigits(0xFF);
    StoredDigits(0x00);
    assert EncryptChar(head[0]) == "A3" && EncryptChar(head[1]) == "5C";
    assert EncryptAll(head + more)
        == "A35C" + (EncryptChar(head[2]) + EncryptChar(head[3]) + EncryptAll(more));
  }

  /** Whatever the random numbers, stored passwords begin with the flag and the dummy byte. */
  lemma {:induction false} BeginsWithFlag(s: string, password: seq<Byte>, key: seq<Byte>, pad: seq<Byte>,
      rest: seq<Byte>)
    requires Encrypted(s, password, key, pad, rest)
    ensures |s| >= 4 && s[..4] == "A35C"
  {
    var all := key + password;
    Regroup(Header(|all|, |pad|), pad, all, rest);
    FirstDigits(Header(|all|, |pad|), pad + (all + rest));
  }

  /** Text in the older form, which begins with the length instead of a flag, is read without a key. */
  lemma {:induction false} OlderForm(password: seq<Byte>, pad: seq<Byte>, rest: seq<Byte>, key: seq<Byte>)
    requires |password| < 255 && |pad| < 256
    ensures Decrypt(EncryptAll([|password| as Byte, |pad| as Byte] + pad + password + rest), key) == password
  {
    var head := [|password| as Byte, |pad| as Byte];
    var bytes := head + (pad + (password + rest));
    Regroup(head, pad, password, rest);
    SmallByte(|password|);
    SmallByte(|pad|);
    DecryptsAll(bytes, 1);
    DecryptsAll(bytes[1..], 1);
    assert bytes[1..][1..] == pad + (password + rest) && bytes[1..][0] == head[1] && bytes[0] == head[0];
    assert DecryptN(EncryptAll(bytes), 1)[0] == bytes[..1][0];
    assert DecryptN(EncryptAll(bytes[1..]), 1)[0] == bytes[1..][..1][0];
    assert Tail(EncryptAll(bytes)) == TailN(EncryptAll(bytes), 1);
    assert Tail(EncryptAll(bytes[1..])) == TailN(EncryptAll(bytes[1..]), 1);
    PaddingSkipped(pad, password + rest);
    DecryptsAll(password + rest, |password|);
    assert (password + rest)[..|password|] == password;
  }

  /** No text, no password. */
  lemma {:induction false} NothingStored(key: seq<Byte>)
    ensures Decrypt("", key) == []
  {
  }

  /** The password comes back exactly when key and password together fit one length byte
      (or there is no password to lose). */
  lemma {:induction false} RoundTripIff(s: string, password: seq<Byte>, key: seq<Byte>, pad: seq<Byte>, rest: seq<Byte>)
    requires Encrypted(s, password, key, pad, rest)
    ensures Decrypt(s, key) == password <==> |key| + |password| <= 255 || password == []
  {
    var all := key + password;
    DecryptEncrypted(s, password, key, pad, rest, key);
    if |all| <= 255 {
      assert all[..|all| % 256] == all && all[|key|..] == password;
    }
  }

  /** Within that length another key yields the rest of key and password if it is a prefix of them,
      and nothing otherwise. */
  lemma {:induction false} OtherKey(s: string, password: seq<Byte>, key: seq<Byte>, pad: seq<Byte>, rest: seq<Byte>,
      key': seq<Byte>)
    requires Encrypted(s, password, key, pad, rest) && |key| + |password| <= 255
    ensures Decrypt(s, key') == if key' <= key + password then (key + password)[|key'|..] else []
  {
    var all := key + password;
    DecryptEncrypted(s, password, key, pad, rest, key');
    assert all[..|all| % 256] == all;
  }
}
