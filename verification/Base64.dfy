/** imageEncoder (helpers/UtilsString.h), against the base64 encoding of section 4 of RFC 4648. */
module Base64 {
  import opened Options

  type byte = bv8
  type uint32 = n: nat | n < 0x1_0000_0000

  /** base64_chars[x]: see TableIsAlphabet. */
  function Symbol(x: bv8): char
    requires x < 64
  {
    CharOf(x as int)
  }

  /** Table 1 of RFC 4648, by ranges. */
  function CharOf(i: nat): char
    requires i < 64
  {
    if i < 26 then 'A' + i as char
    else if i < 52 then 'a' + (i - 26) as char
    else if i < 62 then '0' + (i - 52) as char
    else if i == 62 then '+'
    else '/'
  }

  // ---- the encoding as the RFC describes it: 24-bit groups cut into four 6-bit values ----

  function Group(a: byte, b: byte, c: byte): bv24 {
    ((a as bv24) << 16) | ((b as bv24) << 8) | (c as bv24)
  }

  function Sextet(g: bv24, k: nat): (x: bv8)
    requires k < 4
    ensures x < 64
  {
    match k
    case 0 => ((g >> 18) & 0x3F) as bv8
    case 1 => ((g >> 12) & 0x3F) as bv8
    case 2 => ((g >> 6) & 0x3F) as bv8
    case _ => (g & 0x3F) as bv8
  }

  /** The first n characters of a group. */
  function Cut(g: bv24, n: nat): (s: string)
    requires n <= 4
    ensures |s| == n
  {
    if n == 0 then "" else Cut(g, n - 1) + [Symbol(Sextet(g, n - 1))]
  }

  /** Whole groups give four characters; one byte left gives two and "==", two bytes left give three and "=".
      Missing bytes count as zero bits. */
  function Encoding(bytes: seq<byte>, padding: bool): string {
    if bytes == [] then ""
    else if |bytes| == 1 then Cut(Group(bytes[0], 0, 0), 2) + if padding then "==" else ""
    else if |bytes| == 2 then Cut(Group(bytes[0], bytes[1], 0), 3) + if padding then "=" else ""
    else Cut(Group(bytes[0], bytes[1], bytes[2]), 4) + Encoding(bytes[3..], padding)
  }

  lemma CutIs(g: bv24)
    ensures Cut(g, 1) == [Symbol(Sextet(g, 0))]
    ensures Cut(g, 2) == [Symbol(Sextet(g, 0)), Symbol(Sextet(g, 1))]
    ensures Cut(g, 3) == [Symbol(Sextet(g, 0)), Symbol(Sextet(g, 1)), Symbol(Sextet(g, 2))]
    ensures Cut(g, 4) == [Symbol(Sextet(g, 0)), Symbol(Sextet(g, 1)), Symbol(Sextet(g, 2)), Symbol(Sextet(g, 3))]
  {
    assert Cut(g, 1) == [Symbol(Sextet(g, 0))];
  }

  lemma GroupReads(a: byte, b: byte, c: byte, s: string)
    requires |s| == 4
    requires Symbol(Sextet(Group(a, b, c), 0)) == s[0] && Symbol(Sextet(Group(a, b, c), 1)) == s[1]
    requires Symbol(Sextet(Group(a, b, c), 2)) == s[2] && Symbol(Sextet(Group(a, b, c), 3)) == s[3]
    ensures Cut(Group(a, b, c), 4) == s && Cut(Group(a, b, c), 3) == s[..3] && Cut(Group(a, b, c), 2) == s[..2]
  {
    CutIs(Group(a, b, c));
  }

  /** The illustrations in section 9 of RFC 4648. */
  lemma Section9Illustrations(padding: bool)
    ensures Encoding([0x14, 0xFB, 0x9C, 0x03, 0xD9, 0x7E], padding) == "FPucA9l+"
    ensures Encoding([0x14, 0xFB, 0x9C, 0x03, 0xD9], padding) == "FPucA9k" + if padding then "=" else ""
    ensures Encoding([0x14, 0xFB, 0x9C, 0x03], padding) == "FPucAw" + if padding then "==" else ""
  {
    GroupReads(0x14, 0xFB, 0x9C, "FPuc");
    GroupReads(0x03, 0xD9, 0x7E, "A9l+");
    GroupReads(0x03, 0xD9, 0, "A9kA");
    GroupReads(0x03, 0, 0, "AwAA");
    var first: seq<byte> := [0x14, 0xFB, 0x9C];
    var last: seq<byte> := [0x03, 0xD9, 0x7E];
    assert last[3..] == [] && Encoding(last, padding) == "A9l+";
    assert (first + [0x03, 0xD9, 0x7E])[3..] == [0x03, 0xD9, 0x7E];
    assert (first + [0x03, 0xD9])[3..] == [0x03, 0xD9] && (first + [0x03])[3..] == [0x03];
    assert first + [0x03, 0xD9, 0x7E] == [0x14, 0xFB, 0x9C, 0x03, 0xD9, 0x7E];
    assert first + [0x03, 0xD9] == [0x14, 0xFB, 0x9C, 0x03, 0xD9] && first + [0x03] == [0x14, 0xFB, 0x9C, 0x03];
  }

  // ---- the code: one byte at a time, with the bits left over carried in lastStuff ----

  /** What the loop has emitted for the bytes of an unfinished group. */
  function Started(tail: seq<byte>): string
    requires |tail| < 3
  {
    Cut(Group(if |tail| > 0 then tail[0] else 0, if |tail| > 1 then tail[1] else 0, 0), |tail|)
  }

  /** The bits it still holds back. */
  function Carried(tail: seq<byte>): (x: bv8)
    requires |tail| < 3
    ensures x < 64
  {
    if |tail| == 0 then 0
    else if |tail| == 1 then (tail[0] & 0x03) << 4
    else (tail[1] & 0x0F) << 2
  }

  /** The characters the loop emits for one more byte. */
  function Emitted(tail: seq<byte>, b: byte): string
    requires |tail| < 3
  {
    if |tail| == 0 then [Symbol((b & 0xFC) >> 2)]
    else if |tail| == 1 then [Symbol(((b & 0xF0) >> 4) | Carried(tail))]
    else [Symbol(((b & 0xC0) >> 6) | Carried(tail)), Symbol(b & 0x3F)]
  }

  lemma CarriedStep(tail: seq<byte>, b: byte)
    requires |tail| < 2
    ensures Carried(tail + [b]) == if |tail| == 0 then (b & 0x03) << 4 else (b & 0x0F) << 2
  {
  }

  lemma FirstByte(a: byte)
    ensures (a & 0xFC) >> 2 == Sextet(Group(a, 0, 0), 0)
    ensures (a & 0x03) << 4 == Sextet(Group(a, 0, 0), 1)
  {
  }

  lemma SecondByte(a: byte, b: byte)
    ensures ((b & 0xF0) >> 4) | ((a & 0x03) << 4) == Sextet(Group(a, b, 0), 1)
    ensures (b & 0x0F) << 2 == Sextet(Group(a, b, 0), 2)
    ensures Sextet(Group(a, b, 0), 0) == Sextet(Group(a, 0, 0), 0)
  {
  }

  lemma ThirdByte(a: byte, b: byte, c: byte)
    ensures ((c & 0xC0) >> 6) | ((b & 0x0F) << 2) == Sextet(Group(a, b, c), 2)
    ensures c & 0x3F == Sextet(Group(a, b, c), 3)
    ensures Sextet(Group(a, b, c), 0) == Sextet(Group(a, b, 0), 0)
    ensures Sextet(Group(a, b, c), 1) == Sextet(Group(a, b, 0), 1)
  {
  }

  lemma EmittedFirst(b: byte)
    ensures Started([b]) == Emitted([], b)
  {
    FirstByte(b);
    CutIs(Group(b, 0, 0));
    assert Started([b]) == Cut(Group(b, 0, 0), 1);
  }

  lemma EmittedSecond(a: byte, b: byte)
    ensures Started([a, b]) == Started([a]) + Emitted([a], b)
  {
    SecondByte(a, b);
    CutIs(Group(a, b, 0));
    CutIs(Group(a, 0, 0));
    assert Started([a, b]) == Cut(Group(a, b, 0), 2) && Started([a]) == Cut(Group(a, 0, 0), 1);
  }

  lemma EmittedThird(a: byte, b: byte, c: byte)
    ensures Cut(Group(a, b, c), 4) == Started([a, b]) + Emitted([a, b], c)
  {
    ThirdByte(a, b, c);
    CutIs(Group(a, b, c));
    CutIs(Group(a, b, 0));
    assert Started([a, b]) == Cut(Group(a, b, 0), 2);
  }

  function Padding(n: nat, padding: bool): string {
    if !padding then "" else if n == 1 then "==" else "="
  }

  /** The character emitted after the loop, and the padding. */
  lemma CarriedFinishes(tail: seq<byte>, padding: bool)
    requires 0 < |tail| < 3
    ensures Encoding(tail, padding) == Started(tail) + [Symbol(Carried(tail))] + Padding(|tail|, padding)
  {
    if |tail| == 1 {
      FirstByte(tail[0]);
      CutIs(Group(tail[0], 0, 0));
      assert Started(tail) == [Symbol(Sextet(Group(tail[0], 0, 0), 0))];
    } else {
      SecondByte(tail[0], tail[1]);
      CutIs(Group(tail[0], tail[1], 0));
    }
  }

  /** The bytes of the unfinished group. */
  function Tail(bytes: seq<byte>): (t: seq<byte>)
    ensures |t| < 3
  {
    if |bytes| < 3 then bytes else Tail(bytes[3..])
  }

  /** Everything the loop emits for these bytes. */
  function Output(bytes: seq<byte>): string {
    if |bytes| < 3 then Started(bytes) else Cut(Group(bytes[0], bytes[1], bytes[2]), 4) + Output(bytes[3..])
  }

  lemma {:induction false} OutputStep(bytes: seq<byte>, b: byte)
    ensures Output(bytes + [b]) == Output(bytes) + Emitted(Tail(bytes), b)
    ensures Tail(bytes + [b]) == if |Tail(bytes)| == 2 then [] else Tail(bytes) + [b]
  {
    match |bytes|
    case 0 =>
      assert bytes == [] && bytes + [b] == [b];
      EmittedFirst(b);
    case 1 =>
      assert bytes == [bytes[0]] && bytes + [b] == [bytes[0], b];
      EmittedSecond(bytes[0], b);
    case 2 =>
      assert bytes == [bytes[0], bytes[1]];
      ThirdOutput(bytes[0], bytes[1], b);
    case _ =>
      var rest := bytes[3..];
      OutputStep(rest, b);
      LaterOutput(bytes[0], bytes[1], bytes[2], rest, b);
      Split(bytes, b);
  }

  lemma Split(bytes: seq<byte>, b: byte)
    requires |bytes| >= 3
    ensures bytes == [bytes[0], bytes[1], bytes[2]] + bytes[3..]
    ensures bytes + [b] == [bytes[0], bytes[1], bytes[2]] + (bytes[3..] + [b])
  {
  }

  lemma ThirdOutput(a: byte, b: byte, c: byte)
    ensures Output([a, b] + [c]) == Output([a, b]) + Emitted([a, b], c) && Tail([a, b] + [c]) == []
  {
    assert [a, b] + [c] == [a, b, c] && [a, b, c][3..] == [];
    EmittedThird(a, b, c);
    assert Output([a, b, c]) == Cut(Group(a, b, c), 4) + "";
  }

  lemma LaterOutput(a: byte, b: byte, c: byte, rest: seq<byte>, d: byte)
    requires Output(rest + [d]) == Output(rest) + Emitted(Tail(rest), d)
    ensures var bytes, longer := [a, b, c] + rest, [a, b, c] + (rest + [d]);
            && Output(longer) == Output(bytes) + Emitted(Tail(bytes), d)
            && Tail(longer) == Tail(rest + [d]) && Tail(bytes) == Tail(rest)
  {
    OutputGrows(a, b, c, rest);
    OutputGrows(a, b, c, rest + [d]);
    Combined(Output([a, b, c] + (rest + [d])), Output(rest + [d]), Output([a, b, c] + rest), Output(rest),
             Cut(Group(a, b, c), 4), Emitted(Tail(rest), d));
  }

  lemma OutputGrows(a: byte, b: byte, c: byte, rest: seq<byte>)
    ensures Output([a, b, c] + rest) == Cut(Group(a, b, c), 4) + Output(rest)
    ensures Tail([a, b, c] + rest) == Tail(rest)
  {
    assert ([a, b, c] + rest)[3..] == rest;
  }

  lemma Combined(whole: string, wholeRest: string, part: string, partRest: string, first: string, last: string)
    requires whole == first + wholeRest && part == first + partRest && wholeRest == partRest + last
    ensures whole == part + last
  {
  }

  /** What is left to emit after the loop. */
  function Ending(tail: seq<byte>, padding: bool): string
    requires |tail| < 3
  {
    if tail == [] then "" else [Symbol(Carried(tail))] + Padding(|tail|, padding)
  }

  lemma {:induction false} OutputEnd(bytes: seq<byte>, padding: bool)
    ensures Encoding(bytes, padding) == Output(bytes) + Ending(Tail(bytes), padding)
  {
    if |bytes| < 3 {
      EndingIs(bytes, padding);
    } else {
      OutputEnd(bytes[3..], padding);
      Regroup(Cut(Group(bytes[0], bytes[1], bytes[2]), 4), Output(bytes[3..]), Ending(Tail(bytes), padding), "");
    }
  }

  lemma EndingIs(tail: seq<byte>, padding: bool)
    requires |tail| < 3
    ensures Encoding(tail, padding) == Started(tail) + Ending(tail, padding)
  {
    if tail != [] {
      CarriedFinishes(tail, padding);
      Regroup(Started(tail), "", [Symbol(Carried(tail))], Padding(|tail|, padding));
    }
  }

  lemma Regroup(a: string, b: string, c: string, d: string)
    ensures a + (b + c + d) == a + b + (c + d) == a + b + c + d
    ensures c + d == c + d + ""
  {
  }

  /** The loop's variables after the bytes `seen`. */
  predicate Fits(state: nat, lastStuff: bv8, seen: seq<byte>) {
    state == |Tail(seen)| && (state != 0 ==> lastStuff == Carried(Tail(seen)))
  }

  lemma StepFrom(start: string, seen: seq<byte>, b: byte)
    ensures start + Output(seen + [b]) == start + Output(seen) + Emitted(Tail(seen), b)
    ensures Tail(seen + [b]) == if |Tail(seen)| == 2 then [] else Tail(seen) + [b]
    ensures |Tail(seen)| < 2 ==>
              Carried(Tail(seen + [b])) == if |Tail(seen)| == 0 then (b & 0x03) << 4 else (b & 0x0F) << 2
  {
    OutputStep(seen, b);
    Regroup(start, Output(seen), Emitted(Tail(seen), b), "");
    if |Tail(seen)| < 2 {
      CarriedStep(Tail(seen), b);
    }
  }

  /** The body of the loop, but for the index. */
  method EncodeByte(state: nat, lastStuff: bv8, b: byte, before: string, ghost start: string, ghost seen: seq<byte>)
    returns (result: string, nextState: nat, nextStuff: bv8)
    requires Fits(state, lastStuff, seen) && before == start + Output(seen)
    ensures Fits(nextState, nextStuff, seen + [b]) && result == start + Output(seen + [b])
  {
    StepFrom(start, seen, b);
    nextStuff := lastStuff;
    if state == 0 {
      result := before + [Symbol((b & 0xFC) >> 2)];
      nextStuff := (b & 0x03) << 4;
      nextState := 1;
    } else if state == 1 {
      result := before + [Symbol(((b & 0xF0) >> 4) | lastStuff)];
      nextStuff := (b & 0x0F) << 2;
      nextState := 2;
    } else {
      result := before + [Symbol(((b & 0xC0) >> 6) | lastStuff)];
      result := result + [Symbol(b & 0x3F)];
      nextState := 0;
    }
    assert result == before + Emitted(Tail(seen), b);
  }

  /** What follows the loop. */
  method Finish(state: nat, lastStuff: bv8, padding: bool, before: string, ghost start: string, ghost seen: seq<byte>)
    returns (result: string)
    requires Fits(state, lastStuff, seen) && before == start + Output(seen)
    ensures result == start + Encoding(seen, padding)
  {
    result := before;
    if state != 0 {
      result := result + [Symbol(lastStuff)];
      if padding {
        if state == 1 {
          result := result + "==";
        } else {
          result := result + "=";
        }
      }
    }
    OutputEnd(seen, padding);
    assert result == before + Ending(Tail(seen), padding);
    Regroup(start, Output(seen), Ending(Tail(seen), padding), "");
  }

  /** The loop appends exactly the RFC's encoding of the array to the string it is given. */
  method ImageEncoder(image: array<byte>, length: uint32, padding: bool, before: string) returns (result: string)
    requires length <= image.Length
    ensures result == before + Encoding(image[..length], padding)
  {
    result := before;
    var state: nat := 0;
    var index := 0;
    var lastStuff: bv8 := 0;
    while index < length
      invariant 0 <= index <= length
      invariant Fits(state, lastStuff, image[..index])
      invariant result == before + Output(image[..index])
    {
      result, state, lastStuff := EncodeByte(state, lastStuff, image[index], result, before, image[..index]);
      assert image[..index + 1] == image[..index] + [image[index]];
      index := index + 1;
    }
    result := Finish(state, lastStuff, padding, result, before, image[..length]);
  }

  // ---- the other direction ----

  /** The 6-bit value a character of the alphabet stands for. */
  function Value(c: char): (v: Option<nat>)
    ensures v.Some? ==> v.value < 64
  {
    if 'A' <= c <= 'Z' then Some(c as int - 'A' as int)
    else if 'a' <= c <= 'z' then Some(c as int - 'a' as int + 26)
    else if '0' <= c <= '9' then Some(c as int - '0' as int + 52)
    else if c == '+' then Some(62)
    else if c == '/' then Some(63)
    else None
  }

  // ---- the table of the code ----

  const UPPER: string := "ABCDEFGHIJKLMNOPQRSTUVWXYZ"
  const LOWER: string := "abcdefghijklmnopqrstuvwxyz"
  const REST: string := "0123456789+/"
  const BASE64_CHARS: string := UPPER + LOWER + REST

  lemma UpperAt(i: nat)
    requires i < 26
    ensures UPPER[i] == CharOf(i)
  {
  }

  lemma LowerAt(i: nat)
    requires i < 26
    ensures LOWER[i] == CharOf(i + 26)
  {
  }

  lemma RestAt(i: nat)
    requires i < 12
    ensures REST[i] == CharOf(i + 52)
  {
  }

  lemma TableIsAlphabet(i: nat)
    requires i < 64
    ensures BASE64_CHARS[i] == CharOf(i)
  {
    if i < 26 {
      UpperAt(i);
    } else if i < 52 {
      LowerAt(i - 26);
    } else {
      RestAt(i - 52);
    }
  }

  lemma CharValue(i: nat)
    requires i < 64
    ensures Value(CharOf(i)) == Some(i)
  {
  }

  lemma ValueChar(c: char)
    requires Value(c).Some?
    ensures CharOf(Value(c).value) == c
  {
  }

  /** The bits a character stands for. */
  function Bits(c: char): Option<bv8> {
    match Value(c)
    case None => None
    case Some(v) => Some(v as bv8)
  }

  lemma SymbolBits(x: bv8)
    requires x < 64
    ensures Bits(Symbol(x)) == Some(x)
  {
    CharValue(x as int);
  }

  lemma ByteOfInt(n: nat)
    requires n < 64
    ensures n as bv8 < 64 && (n as bv8) as int == n
  {
  }

  lemma BitsSymbol(c: char)
    requires Bits(c).Some?
    ensures Bits(c).value < 64 && Symbol(Bits(c).value) == c
  {
    ByteOfInt(Value(c).value);
    ValueChar(c);
  }

  // ---- a reference decoder ----

  function Byte0(x0: bv8, x1: bv8): byte { (x0 << 2) | (x1 >> 4) }
  function Byte1(x1: bv8, x2: bv8): byte { ((x1 & 0x0F) << 4) | (x2 >> 2) }
  function Byte2(x2: bv8, x3: bv8): byte { ((x2 & 0x03) << 6) | x3 }

  /** Reads padded and unpadded text; the bits that do not fill a byte must be zero. */
  function Decode(s: string): Option<seq<byte>> {
    if s == "" then Some([])
    else if |s| == 2 || (|s| == 4 && s[2..] == "==") then
      match (Bits(s[0]), Bits(s[1]))
      case (Some(x0), Some(x1)) => if x1 & 0x0F == 0 then Some([Byte0(x0, x1)]) else None
      case _ => None
    else if |s| == 3 || (|s| == 4 && s[3] == '=') then
      match (Bits(s[0]), Bits(s[1]), Bits(s[2]))
      case (Some(x0), Some(x1), Some(x2)) =>
        if x2 & 0x03 == 0 then Some([Byte0(x0, x1), Byte1(x1, x2)]) else None
      case _ => None
    else if |s| >= 4 then
      match (Bits(s[0]), Bits(s[1]), Bits(s[2]), Bits(s[3]), Decode(s[4..]))
      case (Some(x0), Some(x1), Some(x2), Some(x3), Some(rest)) =>
        Some([Byte0(x0, x1), Byte1(x1, x2), Byte2(x2, x3)] + rest)
      case _ => None
    else None
  }

  lemma BytesOfGroup(a: byte, b: byte, c: byte)
    ensures var g := Group(a, b, c);
            && Byte0(Sextet(g, 0), Sextet(g, 1)) == a
            && Byte1(Sextet(g, 1), Sextet(g, 2)) == b
            && Byte2(Sextet(g, 2), Sextet(g, 3)) == c
            && (b == 0 ==> Sextet(g, 1) & 0x0F == 0)
            && (c == 0 ==> Sextet(g, 2) & 0x03 == 0)
  {
  }

  lemma GroupOfBytes(x0: bv8, x1: bv8, x2: bv8, x3: bv8)
    requires x0 < 64 && x1 < 64 && x2 < 64 && x3 < 64
    ensures Sextet(Group(Byte0(x0, x1), Byte1(x1, x2), Byte2(x2, x3)), 0) == x0
    ensures Sextet(Group(Byte0(x0, x1), Byte1(x1, x2), Byte2(x2, x3)), 1) == x1
    ensures Sextet(Group(Byte0(x0, x1), Byte1(x1, x2), Byte2(x2, x3)), 2) == x2
    ensures Sextet(Group(Byte0(x0, x1), Byte1(x1, x2), Byte2(x2, x3)), 3) == x3
  {
  }

  lemma GroupOfTwoBytes(x0: bv8, x1: bv8, x2: bv8)
    requires x0 < 64 && x1 < 64 && x2 < 64 && x2 & 0x03 == 0
    ensures Byte2(x2, 0) == 0
  {
  }

  lemma GroupOfOneByte(x0: bv8, x1: bv8)
    requires x0 < 64 && x1 < 64 && x1 & 0x0F == 0
    ensures Byte1(x1, 0) == 0
  {
  }

  function Text(x0: bv8, x1: bv8, x2: bv8, x3: bv8): string
    requires x0 < 64 && x1 < 64 && x2 < 64 && x3 < 64
  {
    [Symbol(x0), Symbol(x1), Symbol(x2), Symbol(x3)]
  }

  lemma DecodeFour(x0: bv8, x1: bv8, x2: bv8, x3: bv8, rest: string)
    requires x0 < 64 && x1 < 64 && x2 < 64 && x3 < 64 && Decode(rest).Some?
    ensures Decode(Text(x0, x1, x2, x3) + rest)
            == Some([Byte0(x0, x1), Byte1(x1, x2), Byte2(x2, x3)] + Decode(rest).value)
  {
    SymbolBits(x0);
    SymbolBits(x1);
    SymbolBits(x2);
    SymbolBits(x3);
    assert (Text(x0, x1, x2, x3) + rest)[4..] == rest;
  }

  lemma DecodeThree(x0: bv8, x1: bv8, x2: bv8, padding: bool)
    requires x0 < 64 && x1 < 64 && x2 < 64 && x2 & 0x03 == 0
    ensures Decode([Symbol(x0), Symbol(x1), Symbol(x2)] + Padding(2, padding))
            == Some([Byte0(x0, x1), Byte1(x1, x2)])
  {
    SymbolBits(x0);
    SymbolBits(x1);
    SymbolBits(x2);
  }

  lemma DecodeTwo(x0: bv8, x1: bv8, padding: bool)
    requires x0 < 64 && x1 < 64 && x1 & 0x0F == 0
    ensures Decode([Symbol(x0), Symbol(x1)] + Padding(1, padding)) == Some([Byte0(x0, x1)])
  {
    SymbolBits(x0);
    SymbolBits(x1);
  }

  lemma {:induction false} RoundTrip(bytes: seq<byte>, padding: bool)
    ensures Decode(Encoding(bytes, padding)) == Some(bytes)
  {
    if bytes != [] {
      var a, b, c := bytes[0], if |bytes| > 1 then bytes[1] else 0, if |bytes| > 2 then bytes[2] else 0;
      var g := Group(a, b, c);
      var x0, x1, x2, x3 := Sextet(g, 0), Sextet(g, 1), Sextet(g, 2), Sextet(g, 3);
      CutIs(g);
      BytesOfGroup(a, b, c);
      if |bytes| == 1 {
        assert bytes == [a];
        DecodeTwo(x0, x1, padding);
      } else if |bytes| == 2 {
        assert bytes == [a, b];
        DecodeThree(x0, x1, x2, padding);
      } else {
        RoundTrip(bytes[3..], padding);
        DecodeFour(x0, x1, x2, x3, Encoding(bytes[3..], padding));
        assert bytes == [a, b, c] + bytes[3..];
      }
    }
  }

  /** What the decoder reads as one byte, two bytes, or a group, is that byte's, those bytes' or that group's
      encoding. */
  lemma LastByteEncodes(s: string, byte0: byte)
    requires |s| == 2 || (|s| == 4 && s[2..] == "==")
    requires Decode(s) == Some([byte0])
    ensures s == Encoding([byte0], |s| == 4)
  {
    BitsSymbol(s[0]);
    BitsSymbol(s[1]);
    var x0, x1 := Bits(s[0]).value, Bits(s[1]).value;
    OneByteText(x0, x1, |s| == 4);
    TwoCharacters(s);
  }

  lemma OneByteText(x0: bv8, x1: bv8, padding: bool)
    requires x0 < 64 && x1 < 64 && x1 & 0x0F == 0
    ensures Encoding([Byte0(x0, x1)], padding) == [Symbol(x0), Symbol(x1)] + Padding(1, padding)
  {
    GroupOfOneByte(x0, x1);
    GroupOfBytes(x0, x1, 0, 0);
    CutIs(Group(Byte0(x0, x1), 0, 0));
  }

  lemma TwoCharacters(s: string)
    requires |s| == 2 || (|s| == 4 && s[2..] == "==")
    ensures s == [s[0], s[1]] + Padding(1, |s| == 4)
  {
  }

  lemma TwoBytesText(x0: bv8, x1: bv8, x2: bv8, padding: bool)
    requires x0 < 64 && x1 < 64 && x2 < 64 && x2 & 0x03 == 0
    ensures Encoding([Byte0(x0, x1), Byte1(x1, x2)], padding)
            == [Symbol(x0), Symbol(x1), Symbol(x2)] + Padding(2, padding)
  {
    GroupOfTwoBytes(x0, x1, x2);
    GroupOfBytes(x0, x1, x2, 0);
    CutIs(Group(Byte0(x0, x1), Byte1(x1, x2), 0));
  }

  lemma LastTwoBytesRead(s: string, byte0: byte, byte1: byte) returns (x0: bv8, x1: bv8, x2: bv8)
    requires |s| == 3 || (|s| == 4 && s[3] == '=' && s[2] != '=')
    requires Decode(s) == Some([byte0, byte1])
    ensures Bits(s[0]) == Some(x0) && Bits(s[1]) == Some(x1) && Bits(s[2]) == Some(x2)
    ensures x2 & 0x03 == 0 && byte0 == Byte0(x0, x1) && byte1 == Byte1(x1, x2)
  {
    x0, x1, x2 := Bits(s[0]).value, Bits(s[1]).value, Bits(s[2]).value;
    assert [byte0, byte1] == [Byte0(x0, x1), Byte1(x1, x2)];
    assert [byte0, byte1][0] == byte0 && [byte0, byte1][1] == byte1;
  }

  lemma LastTwoBytesEncode(s: string, byte0: byte, byte1: byte)
    requires |s| == 3 || (|s| == 4 && s[3] == '=' && s[2] != '=')
    requires Decode(s) == Some([byte0, byte1])
    ensures s == Encoding([byte0, byte1], |s| == 4)
  {
    var x0, x1, x2 := LastTwoBytesRead(s, byte0, byte1);
    BitsSymbol(s[0]);
    BitsSymbol(s[1]);
    BitsSymbol(s[2]);
    ThreeCharacters(s);
    TwoBytesText(x0, x1, x2, |s| == 4);
  }

  lemma ThreeCharacters(s: string)
    requires |s| == 3 || (|s| == 4 && s[3] == '=')
    ensures s == [s[0], s[1], s[2]] + Padding(2, |s| == 4)
  {
  }

  lemma GroupEncodes(s: string)
    requires |s| == 4 && Bits(s[0]).Some? && Bits(s[1]).Some? && Bits(s[2]).Some? && Bits(s[3]).Some?
    ensures var x0, x1, x2, x3 := Bits(s[0]).value, Bits(s[1]).value, Bits(s[2]).value, Bits(s[3]).value;
            s == Cut(Group(Byte0(x0, x1), Byte1(x1, x2), Byte2(x2, x3)), 4)
  {
    BitsSymbol(s[0]);
    BitsSymbol(s[1]);
    BitsSymbol(s[2]);
    BitsSymbol(s[3]);
    var x0, x1, x2, x3 := Bits(s[0]).value, Bits(s[1]).value, Bits(s[2]).value, Bits(s[3]).value;
    GroupOfBytes(x0, x1, x2, x3);
    CutIs(Group(Byte0(x0, x1), Byte1(x1, x2), Byte2(x2, x3)));
  }

  lemma {:induction false} DecodedIsEncoded(s: string, bytes: seq<byte>)
    requires Decode(s) == Some(bytes)
    ensures s == Encoding(bytes, true) || s == Encoding(bytes, false)
  {
    if s == "" {
    } else if |s| == 2 || (|s| == 4 && s[2..] == "==") {
      assert bytes == [bytes[0]];
      LastByteEncodes(s, bytes[0]);
    } else if |s| == 3 || (|s| == 4 && s[3] == '=') {
      assert bytes == [bytes[0], bytes[1]];
      LastTwoBytesEncode(s, bytes[0], bytes[1]);
    } else {
      GroupEncodes(s[..4]);
      DecodedIsEncoded(s[4..], bytes[3..]);
      assert s == s[..4] + s[4..];
    }
  }

  /** The decoder accepts exactly the two encodings of a byte sequence and gives that sequence back; so
      different arrays never encode alike, padded or not. */
  lemma DecodeExactly(s: string, bytes: seq<byte>)
    ensures Decode(s) == Some(bytes) <==> s in {Encoding(bytes, true), Encoding(bytes, false)}
  {
    RoundTrip(bytes, true);
    RoundTrip(bytes, false);
    if Decode(s) == Some(bytes) {
      DecodedIsEncoded(s, bytes);
    }
  }

  /** Padded text has four characters for every started group of three bytes; unpadded text only as many as
      the bits need. */
  lemma {:induction false} EncodedLength(bytes: seq<byte>)
    ensures |Encoding(bytes, true)| == 4 * ((|bytes| + 2) / 3)
    ensures |Encoding(bytes, false)| == (4 * |bytes| + 2) / 3
  {
    if |bytes| >= 3 {
      EncodedLength(bytes[3..]);
    }
  }
}
