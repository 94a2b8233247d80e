/** Standard base64 with padding (section 4 of RFC 4648): encoding, decoding, and that decoding undoes encoding. */
module Base64 {
  import opened Options

  type Byte = b: int | 0 <= b < 256
  type Sextet = v: int | 0 <= v < 64

  const PAD := '='

  function ToChar(v: Sextet): (c: char)
    ensures c != PAD && FromChar(c) == Some(v)
  {
    if v < 26 then (v + 65) as char
    else if v < 52 then (v + 71) as char
    else if v < 62 then (v - 4) as char
    else if v == 62 then '+' else '/'
  }

  function FromChar(c: char): Option<Sextet> {
    var i := c as int;
    if 65 <= i <= 90 then Some(i - 65)
    else if 97 <= i <= 122 then Some(i - 71)
    else if 48 <= i <= 57 then Some(i + 4)
    else if c == '+' then Some(62)
    else if c == '/' then Some(63)
    else None
  }

  lemma Splits16(high: nat, low: nat)
    requires low < 16
    ensures (high * 16 + low) / 16 == high && (high * 16 + low) % 16 == low
  {
  }

  lemma Splits4(high: nat, low: nat)
    requires low < 4
    ensures (high * 4 + low) / 4 == high && (high * 4 + low) % 4 == low
  {
  }

  /** Three bytes as four sextets. */
  function Group(a: Byte, b: Byte, c: Byte): (g: (Sextet, Sextet, Sextet, Sextet))
    ensures Ungroup(g.0, g.1, g.2, g.3) == (a, b, c)
  {
    Splits16(a % 4, b / 16);
    Splits4(b % 16, c / 64);
    (a / 4, a % 4 * 16 + b / 16, b % 16 * 4 + c / 64, c % 64)
  }

  function Ungroup(v: Sextet, w: Sextet, x: Sextet, y: Sextet): (Byte, Byte, Byte) {
    (v * 4 + w / 16, w % 16 * 16 + x / 4, x % 4 * 64 + y)
  }

  function Encode(data: seq<Byte>): string {
    if data == [] then ""
    else if |data| == 1 then
      var g := Group(data[0], 0, 0);
      [ToChar(g.0), ToChar(g.1), PAD, PAD]
    else if |data| == 2 then
      var g := Group(data[0], data[1], 0);
      [ToChar(g.0), ToChar(g.1), ToChar(g.2), PAD]
    else
      var g := Group(data[0], data[1], data[2]);
      [ToChar(g.0), ToChar(g.1), ToChar(g.2), ToChar(g.3)] + Encode(data[3..])
  }

  function Decode(s: string): Option<seq<Byte>> {
    if s == "" then Some([])
    else if |s| < 4 then None
    else
      var v, w, x, y := FromChar(s[0]), FromChar(s[1]), FromChar(s[2]), FromChar(s[3]);
      if v.None? || w.None? then None
      else if |s| == 4 && s[2] == PAD && s[3] == PAD then Some([Ungroup(v.value, w.value, 0, 0).0])
      else if x.None? then None
      else if |s| == 4 && s[3] == PAD then
        var u := Ungroup(v.value, w.value, x.value, 0);
        Some([u.0, u.1])
      else if y.None? then None
      else
        var u := Ungroup(v.value, w.value, x.value, y.value);
        Prepend(u, Decode(s[4..]))
  }

  function Prepend(u: (Byte, Byte, Byte), rest: Option<seq<Byte>>): Option<seq<Byte>> {
    match rest
    case None => None
    case Some(bytes) => Some([u.0, u.1, u.2] + bytes)
  }

  lemma QuadDecodes(v: Sextet, w: Sextet, x: Sextet, y: Sextet, rest: string)
    ensures Decode([ToChar(v), ToChar(w), ToChar(x), ToChar(y)] + rest) == Prepend(Ungroup(v, w, x, y), Decode(rest))
  {
    var s := [ToChar(v), ToChar(w), ToChar(x), ToChar(y)] + rest;
    assert s[0] == ToChar(v) && s[1] == ToChar(w) && s[2] == ToChar(x) && s[3] == ToChar(y);
    assert s[4..] == rest;
  }

  lemma PaddedDecodes(a: Byte, b: Byte)
    ensures Decode(Encode([a])) == Some([a])
    ensures Decode(Encode([a, b])) == Some([a, b])
  {
    var g, h := Group(a, 0, 0), Group(a, b, 0);
    assert Encode([a]) == [ToChar(g.0), ToChar(g.1), PAD, PAD];
    assert Encode([a, b]) == [ToChar(h.0), ToChar(h.1), ToChar(h.2), PAD];
    assert Ungroup(g.0, g.1, 0, 0).0 == a;
    assert h.3 == 0;
  }

  lemma GroupIsEncoded(data: seq<Byte>)
    requires |data| >= 3
    ensures var g := Group(data[0], data[1], data[2]);
            Encode(data) == [ToChar(g.0), ToChar(g.1), ToChar(g.2), ToChar(g.3)] + Encode(data[3..])
  {
    hide Group, ToChar;
  }

  lemma GroupDecodes(a: Byte, b: Byte, c: Byte, data: seq<Byte>)
    requires Decode(Encode(data)) == Some(data)
    ensures var g := Group(a, b, c);
            Decode([ToChar(g.0), ToChar(g.1), ToChar(g.2), ToChar(g.3)] + Encode(data)) == Some([a, b, c] + data)
  {
    var g := Group(a, b, c);
    QuadDecodes(g.0, g.1, g.2, g.3, Encode(data));
    hide Encode, Decode, Group, Ungroup, ToChar;
  }

  lemma ShortDecodes(data: seq<Byte>)
    requires |data| <= 2
    ensures Decode(Encode(data)) == Some(data)
  {
    if data != [] {
      PaddedDecodes(data[0], data[|data| - 1]);
      hide Encode, Decode;
      assert data == if |data| == 1 then [data[0]] else [data[0], data[1]];
    }
  }

  lemma LongDecodes(data: seq<Byte>)
    requires |data| >= 3 && Decode(Encode(data[3..])) == Some(data[3..])
    ensures Decode(Encode(data)) == Some(data)
  {
    hide *;
    GroupIsEncoded(data);
    GroupDecodes(data[0], data[1], data[2], data[3..]);
    assert data == [data[0], data[1], data[2]] + data[3..];
  }

  lemma {:induction false} DecodeUndoesEncode(data: seq<Byte>)
    ensures Decode(Encode(data)) == Some(data)
  {
    hide *;
    if |data| <= 2 {
      ShortDecodes(data);
    } else {
      DecodeUndoesEncode(data[3..]);
      LongDecodes(data);
    }
  }

  /** The alphabet: A to Z, a to z, 0 to 9, + and /. */
  lemma AlphabetIs(v: Sextet)
    ensures ToChar(0) == 'A' && ToChar(25) == 'Z' && ToChar(26) == 'a' && ToChar(51) == 'z'
    ensures ToChar(52) == '0' && ToChar(61) == '9' && ToChar(62) == '+' && ToChar(63) == '/'
    ensures v < 63 && v !in {25, 51, 61, 62} ==> ToChar(v + 1) as int == ToChar(v) as int + 1
  {
  }

  /** Four sextets spell the 24 bits of the three bytes, the first bit first. */
  lemma GroupKeepsTheBits(a: Byte, b: Byte, c: Byte)
    ensures var g := Group(a, b, c);
            ((g.0 * 64 + g.1) * 64 + g.2) * 64 + g.3 == (a * 256 + b) * 256 + c
  {
    var g := Group(a, b, c);
    assert a == a / 4 * 4 + a % 4 && b == b / 16 * 16 + b % 16 && c == c / 64 * 64 + c % 64;
  }

  /** The length and the padding of the code of n bytes. */
  predicate IsPadded(n: nat, code: string) {
    && |code| == (n + 2) / 3 * 4
    && match n % 3
       case 0 => '=' !in code
       case 1 => code[|code| - 2..] == "==" && code[|code| - 3] != '='
       case _ => code[|code| - 1] == '=' && code[|code| - 2] != '='
  }

  lemma GroupStaysPadded(n: nat, first: string, rest: string)
    requires IsPadded(n, rest) && |first| == 4 && '=' !in first
    ensures IsPadded(n + 3, first + rest)
  {
    var code := first + rest;
    if n % 3 > 0 {
      assert code[|code| - 2..] == rest[|rest| - 2..];
    }
  }

  lemma ShortIsPadded(data: seq<Byte>)
    requires |data| <= 2
    ensures IsPadded(|data|, Encode(data))
  {
    if data != [] {
      var g := Group(data[0], if |data| == 1 then 0 else data[1], 0);
      assert Encode(data) == [ToChar(g.0), ToChar(g.1), if |data| == 1 then PAD else ToChar(g.2), PAD];
      PadsArePadded(ToChar(g.0), ToChar(g.1), ToChar(g.2));
      hide *;
    }
  }

  lemma PadsArePadded(a: char, b: char, c: char)
    requires a != '=' && b != '=' && c != '='
    ensures IsPadded(1, [a, b, '=', '=']) && IsPadded(2, [a, b, c, '='])
  {
    assert [a, b, '=', '='][2..] == "==";
  }

  /** Every group of three bytes takes four characters, and '=' stands for what the last group lacks. */
  lemma {:induction false} EncodedIsPadded(data: seq<Byte>)
    ensures IsPadded(|data|, Encode(data))
  {
    if |data| <= 2 {
      ShortIsPadded(data);
    } else {
      GroupIsEncoded(data);
      EncodedIsPadded(data[3..]);
      var g := Group(data[0], data[1], data[2]);
      var first := [ToChar(g.0), ToChar(g.1), ToChar(g.2), ToChar(g.3)];
      assert '=' !in first;
      hide *;
      GroupStaysPadded(|data| - 3, first, Encode(data[3..]));
    }
  }
}
