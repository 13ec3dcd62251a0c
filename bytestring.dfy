/** The hex and Base64 codec of `ByteString` (rust/src/bytestring.rs).

    A `ByteString` is a plain wrapper around a byte vector, so the codec is
    modelled on `seq<byte>` directly. Each `chunks(n).map(f).collect()` or
    `join` pipeline of the source is a recursion that takes `n` elements at a
    time; `from_base64`, whose fold pushes into a mutable vector, is a method
    with a loop. Every `panic!` arm and every `.unwrap()` of the source is a
    precondition or a destructor that the verifier proves is never violated. */
module ByteString {
  import opened Prelude

  /** The three ways decoding can fail; `Message` gives the exact text the
      source puts in its `Err(String)`. */
  datatype DecodeError =
    | NotAHexCharacter(c: char)
    | OddHexLength
    | NotABase64Character(c: char)
    | DanglingBase64Character

  function Message(e: DecodeError): (r: string)
    ensures |r| > 0
    ensures e.NotAHexCharacter? || e.NotABase64Character? ==> r[|r| - 1] == e.c
  {
    match e
    case NotAHexCharacter(c) => "Not a hex character: " + [c]
    case OddHexLength => "Hex string length must be even"
    case NotABase64Character(c) => "Not a Base 64 character: " + [c]
    case DanglingBase64Character => "Base 64 string cannot have one dangling character"
  }

  // ---------------------------------------------------------------------
  // Character tables
  // ---------------------------------------------------------------------

  /** Reference definition of a hex digit, in either letter case. */
  predicate IsHexDigit(c: char)
  {
    '0' <= c <= '9' || 'a' <= c <= 'f' || 'A' <= c <= 'F'
  }

  /** Reference value of a hex digit. */
  function HexDigitValue(c: char): int
    requires IsHexDigit(c)
  {
    if '0' <= c <= '9' then c as int - '0' as int
    else if 'a' <= c <= 'f' then c as int - 'a' as int + 10
    else c as int - 'A' as int + 10
  }

  /** `hexchar_to_nibble`: the source's lookup table. */
  function HexcharToNibble(c: char): (r: Result<byte, char>)
    ensures r.Ok? <==> IsHexDigit(c)
    ensures r.Err? ==> r.error == c
    ensures r.Ok? ==> r.value < 16 && r.value as int == HexDigitValue(c)
  {
    match c
    case '0' => Ok(0x0) case '1' => Ok(0x1) case '2' => Ok(0x2) case '3' => Ok(0x3)
    case '4' => Ok(0x4) case '5' => Ok(0x5) case '6' => Ok(0x6) case '7' => Ok(0x7)
    case '8' => Ok(0x8) case '9' => Ok(0x9) case 'a' => Ok(0xA) case 'A' => Ok(0xA)
    case 'b' => Ok(0xB) case 'B' => Ok(0xB) case 'c' => Ok(0xC) case 'C' => Ok(0xC)
    case 'd' => Ok(0xD) case 'D' => Ok(0xD) case 'e' => Ok(0xE) case 'E' => Ok(0xE)
    case 'f' => Ok(0xF) case 'F' => Ok(0xF) case _ => Err(c)
  }

  /** Reference definition of the standard Base64 alphabet (section 4 of
      RFC 4648); the padding character `=` is not part of it. */
  predicate IsBase64Symbol(c: char)
  {
    'A' <= c <= 'Z' || 'a' <= c <= 'z' || '0' <= c <= '9' || c == '+' || c == '/'
  }

  /** Reference value of a Base64 symbol. */
  function Base64SymbolValue(c: char): int
    requires IsBase64Symbol(c)
  {
    if 'A' <= c <= 'Z' then c as int - 'A' as int
    else if 'a' <= c <= 'z' then c as int - 'a' as int + 26
    else if '0' <= c <= '9' then c as int - '0' as int + 52
    else if c == '+' then 62
    else 63
  }

  /** `base64char_to_sextet`: the source's lookup table. */
  function Base64charToSextet(c: char): (r: Result<byte, char>)
    ensures r.Ok? <==> IsBase64Symbol(c)
    ensures r.Err? ==> r.error == c
    ensures r.Ok? ==> r.value < 64 && r.value as int == Base64SymbolValue(c)
  {
    match c
    case 'A' => Ok(0) case 'B' => Ok(1) case 'C' => Ok(2) case 'D' => Ok(3)
    case 'E' => Ok(4) case 'F' => Ok(5) case 'G' => Ok(6) case 'H' => Ok(7)
    case 'I' => Ok(8) case 'J' => Ok(9) case 'K' => Ok(10) case 'L' => Ok(11)
    case 'M' => Ok(12) case 'N' => Ok(13) case 'O' => Ok(14) case 'P' => Ok(15)
    case 'Q' => Ok(16) case 'R' => Ok(17) case 'S' => Ok(18) case 'T' => Ok(19)
    case 'U' => Ok(20) case 'V' => Ok(21) case 'W' => Ok(22) case 'X' => Ok(23)
    case 'Y' => Ok(24) case 'Z' => Ok(25) case 'a' => Ok(26) case 'b' => Ok(27)
    case 'c' => Ok(28) case 'd' => Ok(29) case 'e' => Ok(30) case 'f' => Ok(31)
    case 'g' => Ok(32) case 'h' => Ok(33) case 'i' => Ok(34) case 'j' => Ok(35)
    case 'k' => Ok(36) case 'l' => Ok(37) case 'm' => Ok(38) case 'n' => Ok(39)
    case 'o' => Ok(40) case 'p' => Ok(41) case 'q' => Ok(42) case 'r' => Ok(43)
    case 's' => Ok(44) case 't' => Ok(45) case 'u' => Ok(46) case 'v' => Ok(47)
    case 'w' => Ok(48) case 'x' => Ok(49) case 'y' => Ok(50) case 'z' => Ok(51)
    case '0' => Ok(52) case '1' => Ok(53) case '2' => Ok(54) case '3' => Ok(55)
    case '4' => Ok(56) case '5' => Ok(57) case '6' => Ok(58) case '7' => Ok(59)
    case '8' => Ok(60) case '9' => Ok(61) case '+' => Ok(62) case '/' => Ok(63)
    case _ => Err(c)
  }

  const HexChars: string := "0123456789ABCDEF"

  /** `nibble_to_hexchar`: `chars().nth(i)` of the upper-case digit string. */
  function NibbleToHexchar(i: byte): (r: Result<char, byte>)
    ensures r.Ok? <==> i < 16
    ensures r.Err? ==> r.error == i
    ensures r.Ok? ==> IsHexDigit(r.value) && HexDigitValue(r.value) == i as int
    ensures r.Ok? ==> !('a' <= r.value <= 'f')
  {
    if (i as int) < |HexChars| then Ok(HexChars[i as int]) else Err(i)
  }

  /** The Base64 alphabet, written as the source writes it: three string
      pieces joined by line continuations. */
  const UpperLetters: string := "ABCDEFGHIJKLMNOPQRSTUVWXYZ"
  const LowerLetters: string := "abcdefghijklmnopqrstuvwxyz"
  const DigitsPlusSlash: string := "0123456789+/"
  const Base64Chars: string := UpperLetters + LowerLetters + DigitsPlusSlash

  lemma UpperLettersAt(k: int)
    requires 0 <= k < 26
    ensures UpperLetters[k] as int == 'A' as int + k
  {
  }

  lemma LowerLettersAt(k: int)
    requires 0 <= k < 26
    ensures LowerLetters[k] as int == 'a' as int + k
  {
  }

  lemma DigitsPlusSlashAt(k: int)
    requires 0 <= k < 12
    ensures k < 10 ==> DigitsPlusSlash[k] as int == '0' as int + k
    ensures k == 10 ==> DigitsPlusSlash[k] == '+'
    ensures k == 11 ==> DigitsPlusSlash[k] == '/'
  {
  }

  lemma Base64CharsAt(k: int)
    requires 0 <= k < 64
    ensures IsBase64Symbol(Base64Chars[k]) && Base64SymbolValue(Base64Chars[k]) == k
  {
    if k < 26 {
      assert Base64Chars[k] == UpperLetters[k];
      UpperLettersAt(k);
    } else if k < 52 {
      assert Base64Chars[k] == LowerLetters[k - 26];
      LowerLettersAt(k - 26);
    } else {
      assert Base64Chars[k] == DigitsPlusSlash[k - 52];
      DigitsPlusSlashAt(k - 52);
    }
  }

  /** `nibble_to_base64char`: `chars().nth(i)` of the Base64 alphabet. */
  function NibbleToBase64char(i: byte): (r: Result<char, byte>)
    ensures r.Ok? <==> i < 64
    ensures r.Err? ==> r.error == i
    ensures r.Ok? ==> IsBase64Symbol(r.value) && Base64SymbolValue(r.value) == i as int
  {
    if (i as int) < |Base64Chars| then
      Base64CharsAt(i as int);
      Ok(Base64Chars[i as int])
    else
      Err(i)
  }

  // ---------------------------------------------------------------------
  // Hex
  // ---------------------------------------------------------------------

  predicate AllHexDigits(s: string)
  {
    forall i :: 0 <= i < |s| ==> IsHexDigit(s[i])
  }

  /** `hex_string.chars().map(hexchar_to_nibble).collect()`: collecting into
      a `Result` stops at the first character that is not a hex digit. */
  function HexNibbles(s: string): (r: Result<seq<byte>, char>)
    ensures r.Ok? <==> AllHexDigits(s)
    ensures r.Ok? ==> |r.value| == |s|
  {
    if s == [] then Ok([])
    else
      match HexcharToNibble(s[0])
      case Err(c) => Err(c)
      case Ok(n) =>
        match HexNibbles(s[1..])
        case Err(c) => Err(c)
        case Ok(ns) => Ok([n] + ns)
  }

  /** `nibbles_to_byte`: packs a chunk of at most two nibbles, high nibble
      first. Its `panic!` arm is the empty chunk, which `chunks(2)` never
      yields; here that is the precondition. */
  function NibblesToByte(nibbles: seq<byte>): (r: Option<byte>)
    requires |nibbles| >= 1
    ensures r.Some? <==> |nibbles| >= 2
    ensures r.Some? && nibbles[0] < 16 && nibbles[1] < 16 ==>
      r.value >> 4 == nibbles[0] && r.value & 0xF == nibbles[1]
  {
    if |nibbles| >= 2 then Some((nibbles[0] << 4) ^ nibbles[1]) else None
  }

  /** `chunks(2).map(nibbles_to_byte).collect()`: `None` exactly when the
      last chunk is a lone nibble. */
  function PackNibbles(ns: seq<byte>): (r: Option<seq<byte>>)
    ensures r.Some? <==> |ns| % 2 == 0
    ensures r.Some? ==> |r.value| == |ns| / 2
    ensures r.Some? ==> forall k :: 0 <= k < |r.value| ==> r.value[k] == (ns[2 * k] << 4) ^ ns[2 * k + 1]
    decreases |ns|
  {
    if ns == [] then Some([])
    else
      var chunk := if |ns| < 2 then ns else ns[..2];
      match NibblesToByte(chunk)
      case None => None
      case Some(b) =>
        match PackNibbles(ns[2..])
        case None => None
        case Some(bs) => Some([b] + bs)
  }

  /** `ByteString::from_hex`. */
  function FromHex(s: string): (r: Result<seq<byte>, DecodeError>)
    ensures r.Ok? <==> AllHexDigits(s) && |s| % 2 == 0
    ensures r == Err(OddHexLength) <==> AllHexDigits(s) && |s| % 2 == 1
    ensures r.Err? ==> r.error.NotAHexCharacter? || r.error.OddHexLength?
  {
    match HexNibbles(s)
    case Err(c) => Err(NotAHexCharacter(c))
    case Ok(ns) =>
      match PackNibbles(ns)
      case None => Err(OddHexLength)
      case Some(bytes) => Ok(bytes)
  }

  /** The closure of `to_hex`: two upper-case digits, high nibble first;
      both `.unwrap()` calls succeed since a nibble is below 16. */
  function HexPair(b: byte): (r: string)
    ensures |r| == 2
    ensures forall i :: 0 <= i < 2 ==> IsHexDigit(r[i]) && !('a' <= r[i] <= 'f')
  {
    [NibbleToHexchar(b >> 4).value, NibbleToHexchar(b & 0xF).value]
  }

  /** The two digits written for a byte collect back to its high and low
      nibbles. */
  lemma HexPairNibbles(b: byte)
    ensures HexNibbles(HexPair(b)) == Ok([b >> 4, b & 0xF])
  {
    var r := HexPair(b);
    var hi, lo := HexcharToNibble(r[0]), HexcharToNibble(r[1]);
    assert hi == Ok(b >> 4) && lo == Ok(b & 0xF);
    assert r[1..] == [r[1]] && [r[1]][1..] == [];
    assert [b & 0xF] + [] == [b & 0xF];
    assert HexNibbles(r[1..]) == Ok([b & 0xF]);
    assert [b >> 4] + [b & 0xF] == [b >> 4, b & 0xF];
  }

  /** `ByteString::to_hex`: `map(..).join("")`. */
  function ToHex(bytes: seq<byte>): (r: string)
    ensures |r| == 2 * |bytes|
    ensures forall i :: 0 <= i < |r| ==> IsHexDigit(r[i]) && !('a' <= r[i] <= 'f')
  {
    if bytes == [] then "" else HexPair(bytes[0]) + ToHex(bytes[1..])
  }

  // Properties of the hex codec

  /** A character outside `0-9a-fA-F` is reported before the length is
      looked at: the first such character is the error, even when the
      length is odd. */
  lemma {:induction false} FromHexFirstInvalid(s: string, i: nat)
    requires i < |s| && !IsHexDigit(s[i])
    requires forall j :: 0 <= j < i ==> IsHexDigit(s[j])
    ensures HexNibbles(s) == Err(s[i])
    ensures FromHex(s) == Err(NotAHexCharacter(s[i]))
  {
    if i > 0 {
      FromHexFirstInvalid(s[1..], i - 1);
    }
  }

  /** Each character's nibble is its digit value. */
  lemma {:induction false} HexNibblesAt(s: string, i: nat)
    requires HexNibbles(s).Ok? && i < |s|
    ensures HexcharToNibble(s[i]) == Ok(HexNibbles(s).value[i])
    ensures HexNibbles(s).value[i] as int == HexDigitValue(s[i])
  {
    if i > 0 {
      HexNibblesAt(s[1..], i - 1);
    }
  }

  lemma PackedNibbleValue(hi: byte, lo: byte)
    requires hi < 16 && lo < 16
    ensures ((hi << 4) ^ lo) as int == 16 * hi as int + lo as int
  {
  }

  /** An even run of hex digits decodes to half as many bytes, each the
      high digit times 16 plus the low digit. */
  lemma FromHexDecodes(s: string)
    requires AllHexDigits(s) && |s| % 2 == 0
    ensures FromHex(s).Ok?
    ensures |FromHex(s).value| == |s| / 2
    ensures forall k :: 0 <= k < |s| / 2 ==>
      FromHex(s).value[k] as int == 16 * HexDigitValue(s[2 * k]) + HexDigitValue(s[2 * k + 1])
  {
    var ns := HexNibbles(s).value;
    forall k | 0 <= k < |s| / 2
      ensures FromHex(s).value[k] as int == 16 * HexDigitValue(s[2 * k]) + HexDigitValue(s[2 * k + 1])
    {
      HexNibblesAt(s, 2 * k);
      HexNibblesAt(s, 2 * k + 1);
      PackedNibbleValue(ns[2 * k], ns[2 * k + 1]);
    }
  }

  /** The nibbles of a byte string, high nibble first. */
  ghost function Nibbles(bytes: seq<byte>): seq<byte>
  {
    if bytes == [] then [] else [bytes[0] >> 4, bytes[0] & 0xF] + Nibbles(bytes[1..])
  }

  lemma {:induction false} HexNibblesAppend(x: string, y: string)
    requires HexNibbles(x).Ok? && HexNibbles(y).Ok?
    ensures HexNibbles(x + y) == Ok(HexNibbles(x).value + HexNibbles(y).value)
  {
    if x == [] {
      assert x + y == y;
      assert HexNibbles(x).value + HexNibbles(y).value == HexNibbles(y).value;
    } else {
      assert (x + y)[0] == x[0];
      assert (x + y)[1..] == x[1..] + y;
      HexNibblesAppend(x[1..], y);
      var n := HexcharToNibble(x[0]).value;
      var xs, ys := HexNibbles(x[1..]).value, HexNibbles(y).value;
      assert [n] + (xs + ys) == ([n] + xs) + ys;
    }
  }

  lemma {:induction false} HexNibblesOfToHex(bytes: seq<byte>)
    ensures HexNibbles(ToHex(bytes)) == Ok(Nibbles(bytes))
  {
    if bytes != [] {
      HexNibblesOfToHex(bytes[1..]);
      HexPairNibbles(bytes[0]);
      HexNibblesAppend(HexPair(bytes[0]), ToHex(bytes[1..]));
    }
  }

  /** The two nibbles of a byte pack back into it. */
  lemma NibblePairPacks(b: byte)
    ensures NibblesToByte([b >> 4, b & 0xF]) == Some(b)
  {
    assert ((b >> 4) << 4) ^ (b & 0xF) == b;
  }

  lemma {:induction false} PackNibblesOfNibbles(bytes: seq<byte>)
    ensures PackNibbles(Nibbles(bytes)) == Some(bytes)
  {
    if bytes != [] {
      var ns := Nibbles(bytes);
      var b := bytes[0];
      PackNibblesOfNibbles(bytes[1..]);
      NibblePairPacks(b);
      assert ns[2..] == Nibbles(bytes[1..]);
      assert ns[..2] == [b >> 4, b & 0xF];
      assert [b] + bytes[1..] == bytes;
    }
  }

  /** `from_hex` inverts `to_hex`. */
  lemma HexRoundTrip(bytes: seq<byte>)
    ensures FromHex(ToHex(bytes)) == Ok(bytes)
  {
    HexNibblesOfToHex(bytes);
    PackNibblesOfNibbles(bytes);
  }

  /** Reference: a hex digit with its letter, if any, in upper case. */
  function UpperHexDigit(c: char): char
  {
    if 'a' <= c <= 'f' then (c as int - 32) as char else c
  }

  function UpperHex(s: string): (r: string)
    ensures |r| == |s|
  {
    seq(|s|, i requires 0 <= i < |s| => UpperHexDigit(s[i]))
  }

  lemma NibbleCharCanonical(c: char)
    requires IsHexDigit(c)
    ensures NibbleToHexchar(HexcharToNibble(c).value) == Ok(UpperHexDigit(c))
  {
  }

  lemma IndexBefore(x: string, y: string, i: nat)
    requires i < |x|
    ensures (x + y)[i] == x[i]
  {
  }

  lemma IndexAfter(x: string, y: string, i: nat)
    requires |x| <= i < |x| + |y|
    ensures (x + y)[i] == y[i - |x|]
  {
  }

  lemma {:induction false} ToHexAt(bytes: seq<byte>, k: nat)
    requires k < |bytes|
    ensures ToHex(bytes)[2 * k] == HexPair(bytes[k])[0]
    ensures ToHex(bytes)[2 * k + 1] == HexPair(bytes[k])[1]
  {
    var head, tail := HexPair(bytes[0]), ToHex(bytes[1..]);
    assert ToHex(bytes) == head + tail;
    if k == 0 {
      IndexBefore(head, tail, 0);
      IndexBefore(head, tail, 1);
    } else {
      var j := k - 1;
      ToHexAt(bytes[1..], j);
      assert bytes[1..][j] == bytes[k];
      assert |head| == 2 && 2 * k == 2 * j + 2;
      IndexAfter(head, tail, 2 * j + 2);
      IndexAfter(head, tail, 2 * j + 3);
    }
  }

  lemma HexCanonicalPair(s: string, k: nat)
    requires FromHex(s).Ok? && k < |s| / 2
    ensures ToHex(FromHex(s).value)[2 * k] == UpperHexDigit(s[2 * k])
    ensures ToHex(FromHex(s).value)[2 * k + 1] == UpperHexDigit(s[2 * k + 1])
  {
    var ns := HexNibbles(s).value;
    var bs := FromHex(s).value;
    ToHexAt(bs, k);
    HexNibblesAt(s, 2 * k);
    HexNibblesAt(s, 2 * k + 1);
    var hi, lo := ns[2 * k], ns[2 * k + 1];
    assert bs[k] == (hi << 4) ^ lo;
    assert ((hi << 4) ^ lo) >> 4 == hi && ((hi << 4) ^ lo) & 0xF == lo;
    NibbleCharCanonical(s[2 * k]);
    NibbleCharCanonical(s[2 * k + 1]);
  }

  /** `to_hex` inverts `from_hex` up to letter case: re-encoding what was
      decoded gives the input with its letters in upper case. */
  lemma HexCanonical(s: string)
    requires FromHex(s).Ok?
    ensures ToHex(FromHex(s).value) == UpperHex(s)
  {
    var r := ToHex(FromHex(s).value);
    forall i | 0 <= i < |s|
      ensures r[i] == UpperHex(s)[i]
    {
      HexCanonicalPair(s, i / 2);
    }
  }

  // ---------------------------------------------------------------------
  // Base64
  // ---------------------------------------------------------------------

  /** Reference: the string with every `=` removed, wherever it stands. */
  function RemovePadding(s: string): (r: string)
    ensures '=' !in r
    ensures |r| <= |s|
  {
    if s == [] then ""
    else if s[0] == '=' then RemovePadding(s[1..])
    else [s[0]] + RemovePadding(s[1..])
  }

  predicate AllBase64OrPadding(s: string)
  {
    forall i :: 0 <= i < |s| ==> IsBase64Symbol(s[i]) || s[i] == '='
  }

  /** `chars().map(base64char_to_sextet).filter(..).collect()`: the filter
      drops `Err('=')`, so padding is discarded anywhere in the string;
      collecting stops at the first other character outside the
      alphabet. */
  function Base64Sextets(s: string): (r: Result<seq<byte>, char>)
    ensures r.Ok? <==> AllBase64OrPadding(s)
    ensures r.Err? ==> r.error != '='
    ensures r.Ok? ==> |r.value| == |RemovePadding(s)|
  {
    if s == [] then Ok([]) else SextetCons(Base64charToSextet(s[0]), Base64Sextets(s[1..]))
  }

  /** One step of the filter and collect: `Err('=')` is dropped, another
      error stops the collect, and a sextet goes in front of the rest. */
  function SextetCons(head: Result<byte, char>, rest: Result<seq<byte>, char>): (r: Result<seq<byte>, char>)
    ensures r.Ok? <==> (head.Ok? || head.error == '=') && rest.Ok?
    ensures r.Err? && head.Err? && head.error != '=' ==> r.error == head.error
    ensures r.Ok? ==> r.value == (if head.Ok? then [head.value] else []) + rest.value
  {
    match head
    case Err(c) => if c == '=' then rest else Err(c)
    case Ok(x) =>
      match rest
      case Err(c) => Err(c)
      case Ok(xs) => Ok([x] + xs)
  }

  /** Sextets appended to the rest are appended to the step's result. */
  lemma SextetConsAppend(head: Result<byte, char>, xs: seq<byte>, ys: seq<byte>)
    requires SextetCons(head, Ok(xs)).Ok?
    ensures SextetCons(head, Ok(xs + ys)) == Ok(SextetCons(head, Ok(xs)).value + ys)
  {
    if head.Ok? {
      assert [head.value] + (xs + ys) == ([head.value] + xs) + ys;
    }
  }

  /** Sextet `k` of a valid input is the value of its `k`-th symbol once
      the `=` are removed. */
  lemma {:induction false} Base64SextetsAt(s: string, k: nat)
    requires Base64Sextets(s).Ok? && k < |RemovePadding(s)|
    ensures IsBase64Symbol(RemovePadding(s)[k])
    ensures Base64Sextets(s).value[k] as int == Base64SymbolValue(RemovePadding(s)[k])
  {
    if s[0] == '=' {
      Base64SextetsAt(s[1..], k);
    } else if k > 0 {
      assert ([s[0]] + RemovePadding(s[1..]))[k] == RemovePadding(s[1..])[k - 1];
      Base64SextetsAt(s[1..], k - 1);
    }
  }

  /** The fold's closure in `from_base64`: a group of two, three or four
      sextets becomes one, two or three bytes. The `panic!` arm (a group of
      one) cannot be reached because a remainder of one is rejected first. */
  function DecodeChunk(chunk: seq<byte>): (r: seq<byte>)
    requires 2 <= |chunk| <= 4
    ensures |r| == |chunk| - 1
  {
    var a := chunk[0];
    var b := chunk[1];
    if |chunk| == 2 then
      [(a << 2) ^ (b >> 4)]
    else if |chunk| == 3 then
      var c := chunk[2];
      [(a << 2) ^ (b >> 4), ((b & 0x0F) << 4) ^ (c >> 2)]
    else
      var c := chunk[2];
      var d := chunk[3];
      [(a << 2) ^ (b >> 4), ((b & 0x0F) << 4) ^ (c >> 2), ((c & 0x03) << 6) ^ d]
  }

  /** Bytes decoded from a sextet count with the given remainder mod 4. */
  function TailBytes(rem: nat): nat
  {
    if rem == 0 then 0 else rem - 1
  }

  /** `chunks(4).fold(Vec::new(), ..)` as a function: the specification of
      the loop in `FromBase64`. */
  function DecodeSextets(ss: seq<byte>): (r: seq<byte>)
    requires |ss| % 4 != 1
    ensures |r| == 3 * (|ss| / 4) + TailBytes(|ss| % 4)
    decreases |ss|
  {
    if |ss| == 0 then []
    else if |ss| < 4 then DecodeChunk(ss)
    else DecodeChunk(ss[..4]) + DecodeSextets(ss[4..])
  }

  /** Where the chunk that starts at `i` ends, for `n` sextets. */
  lemma ChunkBounds(n: nat, i: nat, end: nat)
    requires i % 4 == 0 && i < n && n % 4 != 1
    requires end == if i + 4 <= n then i + 4 else n
    ensures 2 <= end - i <= 4 && (n - end) % 4 != 1 && (n - i) % 4 != 1
    ensures end % 4 == 0 || end == n
  {
    var q := i / 4;
    assert i == 4 * q;
    assert (n - i) % 4 == n % 4;
    if i + 4 <= n {
      assert (n - end) % 4 == n % 4;
    }
  }

  lemma DecodeSextetsSplit(ss: seq<byte>, i: nat, end: nat)
    requires i % 4 == 0 && i < |ss| && |ss| % 4 != 1
    requires end == if i + 4 <= |ss| then i + 4 else |ss|
    ensures 2 <= end - i <= 4 && (|ss| - end) % 4 != 1
    ensures end % 4 == 0 || end == |ss|
    ensures DecodeSextets(ss[i..]) == DecodeChunk(ss[i..end]) + DecodeSextets(ss[end..])
  {
    ChunkBounds(|ss|, i, end);
    var t := ss[i..];
    assert t[..end - i] == ss[i..end];
    assert t[end - i..] == ss[end..];
    if end - i < 4 {
      assert ss[end..] == [];
    }
  }

  lemma AppendAssoc<T>(a: seq<T>, b: seq<T>, c: seq<T>)
    ensures (a + b) + c == a + (b + c)
  {
  }

  /** `from_base64` as a function of its input. */
  function Base64Decode(s: string): (r: Result<seq<byte>, DecodeError>)
    ensures r.Err? && r.error.NotABase64Character? <==> !AllBase64OrPadding(s)
    ensures r == Err(DanglingBase64Character) <==>
      AllBase64OrPadding(s) && |RemovePadding(s)| % 4 == 1
    ensures r.Ok? <==> AllBase64OrPadding(s) && |RemovePadding(s)| % 4 != 1
    ensures r.Ok? ==> |r.value| == 3 * (|RemovePadding(s)| / 4) + TailBytes(|RemovePadding(s)| % 4)
  {
    match Base64Sextets(s)
    case Err(c) => Err(NotABase64Character(c))
    case Ok(ss) =>
      if |ss| % 4 == 1 then Err(DanglingBase64Character) else Ok(DecodeSextets(ss))
  }

  /** The fold of `from_base64` (`chars.chunks(4).fold(Vec::new(), ..)`):
      a loop that appends each chunk's bytes to an accumulator. */
  method FoldSextets(chars: seq<byte>) returns (vec: seq<byte>)
    requires |chars| % 4 != 1
    ensures vec == DecodeSextets(chars)
    ensures |vec| == 3 * (|chars| / 4) + TailBytes(|chars| % 4)
  {
    vec := [];
    var i := 0;
    while i < |chars|
      invariant 0 <= i <= |chars|
      invariant i % 4 == 0 || i == |chars|
      invariant (|chars| - i) % 4 != 1
      invariant vec + DecodeSextets(chars[i..]) == DecodeSextets(chars)
      decreases |chars| - i
    {
      var end := if i + 4 <= |chars| then i + 4 else |chars|;
      DecodeSextetsSplit(chars, i, end);
      ghost var before := vec;
      vec := vec + DecodeChunk(chars[i..end]);
      AppendAssoc(before, DecodeChunk(chars[i..end]), DecodeSextets(chars[end..]));
      i := end;
    }
    assert chars[i..] == [];
  }

  /** `ByteString::from_base64`. */
  method FromBase64(s: string) returns (r: Result<seq<byte>, DecodeError>)
    ensures r == Base64Decode(s)
    ensures r.Ok? ==> |r.value| == 3 * (|RemovePadding(s)| / 4) + TailBytes(|RemovePadding(s)| % 4)
  {
    var sextets := Base64Sextets(s);
    if sextets.Err? {
      return Err(NotABase64Character(sextets.error));
    }
    var chars := sextets.value;
    if |chars| % 4 == 1 {
      return Err(DanglingBase64Character);
    }
    var vec := FoldSextets(chars);
    r := Ok(vec);
  }

  /** The closure of `to_base64`: a chunk of one, two or three bytes
      becomes four characters, padded with `=`. The `panic!` arm (an empty
      chunk) cannot be reached; every `.unwrap()` succeeds because each
      index is masked or shifted below 64. */
  function EncodeChunk(chunk: seq<byte>): (r: string)
    requires 1 <= |chunk| <= 3
    ensures |r| == 4
    ensures |chunk| == 1 ==> r[2] == '=' && r[3] == '='
    ensures |chunk| == 2 ==> r[2] != '=' && r[3] == '='
    ensures |chunk| == 3 ==> r[2] != '=' && r[3] != '='
    ensures r[0] != '=' && r[1] != '='
  {
    var a := chunk[0];
    if |chunk| == 1 then
      [NibbleToBase64char(a >> 2).value,
       NibbleToBase64char((a & 0x03) << 4).value, '=', '=']
    else if |chunk| == 2 then
      var b := chunk[1];
      [NibbleToBase64char(a >> 2).value,
       NibbleToBase64char(((a & 0x03) << 4) ^ (b >> 4)).value,
       NibbleToBase64char((b & 0x0F) << 2).value, '=']
    else
      var b := chunk[1];
      var c := chunk[2];
      [NibbleToBase64char(a >> 2).value,
       NibbleToBase64char(((a & 0x03) << 4) ^ (b >> 4)).value,
       NibbleToBase64char(((b & 0x0F) << 2) ^ (c >> 6)).value,
       NibbleToBase64char(c & 0x3F).value]
  }

  /** `ByteString::to_base64`: `chunks(3).map(..).join("")`. */
  function ToBase64(bytes: seq<byte>): (r: string)
    ensures |r| == 4 * ((|bytes| + 2) / 3)
    decreases |bytes|
  {
    if bytes == [] then ""
    else if |bytes| < 3 then EncodeChunk(bytes)
    else EncodeChunk(bytes[..3]) + ToBase64(bytes[3..])
  }

  /** Without a final partial chunk there is no padding. */
  lemma {:induction false} ToBase64Unpadded(bytes: seq<byte>)
    requires |bytes| % 3 == 0
    ensures '=' !in ToBase64(bytes)
    decreases |bytes|
  {
    if bytes != [] {
      ToBase64Unpadded(bytes[3..]);
      var head := EncodeChunk(bytes[..3]);
      assert '=' !in head;
    }
  }

  /** Whole chunks followed by a partial one encode chunk by chunk. */
  lemma {:induction false} ToBase64Append(prefix: seq<byte>, last: seq<byte>)
    requires |prefix| % 3 == 0 && 1 <= |last| <= 2
    ensures ToBase64(prefix + last) == ToBase64(prefix) + EncodeChunk(last)
    decreases |prefix|
  {
    if prefix == [] {
      assert prefix + last == last;
    } else {
      var b := prefix + last;
      assert b[..3] == prefix[..3];
      assert b[3..] == prefix[3..] + last;
      ToBase64Append(prefix[3..], last);
      AppendAssoc(EncodeChunk(prefix[..3]), ToBase64(prefix[3..]), EncodeChunk(last));
    }
  }

  /** A length that is not a multiple of three is whole chunks and a
      partial chunk of one or two. */
  lemma SplitThree(n: nat)
    requires n % 3 != 0
    ensures (n - n % 3) % 3 == 0 && 1 <= n % 3 <= 2
  {
  }

  /** The last two characters are those of the final partial chunk. */
  lemma ToBase64Last(bytes: seq<byte>)
    requires |bytes| % 3 != 0
    ensures var r, e := ToBase64(bytes), EncodeChunk(bytes[|bytes| - |bytes| % 3..]);
      r[|r| - 2] == e[2] && r[|r| - 1] == e[3] && '=' !in r[..|r| - 4]
  {
    SplitThree(|bytes|);
    var split := |bytes| - |bytes| % 3;
    var prefix, last := bytes[..split], bytes[split..];
    assert bytes == prefix + last;
    ToBase64Append(prefix, last);
    var tp, e := ToBase64(prefix), EncodeChunk(last);
    var r := tp + e;
    assert |r| == |tp| + 4;
    assert r[|r| - 2] == e[2] && r[|r| - 1] == e[3];
    assert r[..|r| - 4] == tp;
    ToBase64Unpadded(prefix);
  }

  /** Only the last group is padded: with `==` after a final single byte,
      with one `=` after a final pair, and not at all when the length is a
      multiple of three. */
  lemma ToBase64Padding(bytes: seq<byte>)
    ensures var r := ToBase64(bytes);
      && (|bytes| % 3 == 1 ==> r[|r| - 2] == '=' && r[|r| - 1] == '=')
      && (|bytes| % 3 == 2 ==> r[|r| - 2] != '=' && r[|r| - 1] == '=')
      && (|bytes| % 3 == 0 ==> '=' !in r)
      && (|bytes| % 3 != 0 ==> '=' !in r[..|r| - 4])
  {
    if |bytes| % 3 == 0 {
      ToBase64Unpadded(bytes);
    } else {
      ToBase64Last(bytes);
    }
  }

  // Properties of the Base64 codec

  /** The first character that is neither in the alphabet nor `=` is the
      error, whatever follows it. */
  lemma {:induction false} Base64FirstInvalid(s: string, i: nat)
    requires i < |s| && !IsBase64Symbol(s[i]) && s[i] != '='
    requires forall j :: 0 <= j < i ==> IsBase64Symbol(s[j]) || s[j] == '='
    ensures Base64Sextets(s) == Err(s[i])
    ensures Base64Decode(s) == Err(NotABase64Character(s[i]))
  {
    if i > 0 {
      Base64FirstInvalid(s[1..], i - 1);
    }
  }

  /** Padding is ignored wherever it appears: removing every `=` first
      decodes to the same result. */
  lemma {:induction false} PaddingIgnored(s: string)
    ensures Base64Sextets(RemovePadding(s)) == Base64Sextets(s)
    ensures Base64Decode(RemovePadding(s)) == Base64Decode(s)
  {
    if s != [] {
      PaddingIgnored(s[1..]);
      if s[0] != '=' {
        assert ([s[0]] + RemovePadding(s[1..]))[1..] == RemovePadding(s[1..]);
      }
    }
  }

  /** The sextets `to_base64` writes for a chunk, before padding. */
  ghost function ChunkSextets(chunk: seq<byte>): seq<byte>
    requires 1 <= |chunk| <= 3
  {
    var a := chunk[0];
    if |chunk| == 1 then [a >> 2, (a & 0x03) << 4]
    else if |chunk| == 2 then
      var b := chunk[1];
      [a >> 2, ((a & 0x03) << 4) ^ (b >> 4), (b & 0x0F) << 2]
    else
      var b := chunk[1];
      var c := chunk[2];
      [a >> 2, ((a & 0x03) << 4) ^ (b >> 4), ((b & 0x0F) << 2) ^ (c >> 6), c & 0x3F]
  }

  /** All sextets `to_base64` writes. */
  ghost function EncodedSextets(bytes: seq<byte>): seq<byte>
    decreases |bytes|
  {
    if bytes == [] then []
    else if |bytes| < 3 then ChunkSextets(bytes)
    else ChunkSextets(bytes[..3]) + EncodedSextets(bytes[3..])
  }

  /** The Base64 symbols of a sequence of sextets, without padding. */
  ghost function Symbols(ss: seq<byte>): (r: string)
    requires forall k :: 0 <= k < |ss| ==> ss[k] < 64
    ensures |r| == |ss|
  {
    if ss == [] then "" else [NibbleToBase64char(ss[0]).value] + Symbols(ss[1..])
  }

  lemma {:induction false} SymbolsAt(ss: seq<byte>, k: nat)
    requires forall j :: 0 <= j < |ss| ==> ss[j] < 64
    requires k < |ss|
    ensures Symbols(ss)[k] == NibbleToBase64char(ss[k]).value
  {
    if k > 0 {
      SymbolsAt(ss[1..], k - 1);
    }
  }

  lemma SymbolRoundTrip(i: byte)
    requires i < 64
    ensures Base64charToSextet(NibbleToBase64char(i).value) == Ok(i)
  {
    var c := NibbleToBase64char(i).value;
    assert Base64charToSextet(c).value as int == i as int;
  }

  lemma {:induction false} SymbolsDecode(ss: seq<byte>)
    requires forall k :: 0 <= k < |ss| ==> ss[k] < 64
    ensures Base64Sextets(Symbols(ss)) == Ok(ss)
  {
    if ss != [] {
      SymbolsDecode(ss[1..]);
      SymbolRoundTrip(ss[0]);
      var e := Symbols(ss);
      assert e[1..] == Symbols(ss[1..]);
      assert [ss[0]] + ss[1..] == ss;
    }
  }

  lemma ChunkSextetsBelow64(chunk: seq<byte>)
    requires 1 <= |chunk| <= 3
    ensures |ChunkSextets(chunk)| == |chunk| + 1
    ensures forall k :: 0 <= k < |ChunkSextets(chunk)| ==> ChunkSextets(chunk)[k] < 64
  {
    var a := chunk[0];
    assert a >> 2 < 64 && (a & 0x03) << 4 < 64;
    if |chunk| >= 2 {
      var b := chunk[1];
      assert ((a & 0x03) << 4) ^ (b >> 4) < 64 && (b & 0x0F) << 2 < 64;
    }
    if |chunk| == 3 {
      var b, c := chunk[1], chunk[2];
      assert ((b & 0x0F) << 2) ^ (c >> 6) < 64 && c & 0x3F < 64;
    }
  }

  /** Each chunk `to_base64` writes is the symbols of its sextets followed
      by padding. */
  lemma EncodeChunkSymbols(chunk: seq<byte>)
    requires 1 <= |chunk| <= 3
    ensures forall k :: 0 <= k < |ChunkSextets(chunk)| ==> ChunkSextets(chunk)[k] < 64
    ensures EncodeChunk(chunk) == Symbols(ChunkSextets(chunk)) + (if |chunk| == 1 then "==" else if |chunk| == 2 then "=" else "")
  {
    ChunkSextetsBelow64(chunk);
    var ss := ChunkSextets(chunk);
    var pad := if |chunk| == 1 then "==" else if |chunk| == 2 then "=" else "";
    var e := Symbols(ss) + pad;
    forall k | 0 <= k < |ss|
      ensures e[k] == NibbleToBase64char(ss[k]).value
    {
      SymbolsAt(ss, k);
    }
    assert EncodeChunk(chunk) == e;
  }

  lemma PaddingSextets(pad: string)
    requires pad == "" || pad == "=" || pad == "=="
    ensures Base64Sextets(pad) == Ok([])
  {
    if pad != "" {
      assert pad[1..] == "" || pad[1..] == "=";
      if pad[1..] == "=" {
        assert pad[1..][1..] == "";
      }
    }
  }

  lemma ChunkSextetsDecode(chunk: seq<byte>)
    requires 1 <= |chunk| <= 3
    ensures |ChunkSextets(chunk)| == |chunk| + 1
    ensures DecodeChunk(ChunkSextets(chunk)) == chunk
  {
    var a := chunk[0];
    if |chunk| == 1 {
      assert ((a >> 2) << 2) ^ (((a & 0x03) << 4) >> 4) == a;
    } else if |chunk| == 2 {
      var b := chunk[1];
      assert ((a >> 2) << 2) ^ ((((a & 0x03) << 4) ^ (b >> 4)) >> 4) == a;
      assert (((((a & 0x03) << 4) ^ (b >> 4)) & 0x0F) << 4) ^ (((b & 0x0F) << 2) >> 2) == b;
    } else {
      var b := chunk[1];
      var c := chunk[2];
      assert ((a >> 2) << 2) ^ ((((a & 0x03) << 4) ^ (b >> 4)) >> 4) == a;
      assert (((((a & 0x03) << 4) ^ (b >> 4)) & 0x0F) << 4) ^ ((((b & 0x0F) << 2) ^ (c >> 6)) >> 2) == b;
      assert ((((((b & 0x0F) << 2) ^ (c >> 6)) & 0x03) << 6) ^ (c & 0x3F)) == c;
    }
  }

  lemma ChunkRoundTrip(chunk: seq<byte>)
    requires 1 <= |chunk| <= 3
    ensures Base64Sextets(EncodeChunk(chunk)) == Ok(ChunkSextets(chunk))
    ensures |ChunkSextets(chunk)| == |chunk| + 1
    ensures DecodeChunk(ChunkSextets(chunk)) == chunk
  {
    ChunkSextetsDecode(chunk);
    EncodeChunkSymbols(chunk);
    var ss := ChunkSextets(chunk);
    var pad := if |chunk| == 1 then "==" else if |chunk| == 2 then "=" else "";
    SymbolsDecode(ss);
    PaddingSextets(pad);
    Base64SextetsAppend(Symbols(ss), pad);
    assert ss + [] == ss;
  }

  lemma {:induction false} Base64SextetsAppend(x: string, y: string)
    requires Base64Sextets(x).Ok? && Base64Sextets(y).Ok?
    ensures Base64Sextets(x + y) == Ok(Base64Sextets(x).value + Base64Sextets(y).value)
  {
    if x == [] {
      assert x + y == y;
      assert Base64Sextets(x).value + Base64Sextets(y).value == Base64Sextets(y).value;
    } else {
      assert (x + y)[0] == x[0];
      assert (x + y)[1..] == x[1..] + y;
      Base64SextetsAppend(x[1..], y);
      SextetConsAppend(Base64charToSextet(x[0]), Base64Sextets(x[1..]).value, Base64Sextets(y).value);
    }
  }

  lemma {:induction false} EncodedSextetsLength(bytes: seq<byte>)
    ensures |EncodedSextets(bytes)| == |bytes| + (|bytes| + 2) / 3
    ensures |EncodedSextets(bytes)| % 4 != 1
    decreases |bytes|
  {
    if bytes != [] {
      if |bytes| < 3 {
        ChunkSextetsBelow64(bytes);
      } else {
        ChunkSextetsBelow64(bytes[..3]);
        EncodedSextetsLength(bytes[3..]);
      }
    }
  }

  lemma {:induction false} EncodedSextetsOfToBase64(bytes: seq<byte>)
    ensures Base64Sextets(ToBase64(bytes)) == Ok(EncodedSextets(bytes))
    decreases |bytes|
  {
    if bytes == [] {
    } else if |bytes| < 3 {
      ChunkRoundTrip(bytes);
    } else {
      ChunkRoundTrip(bytes[..3]);
      EncodedSextetsOfToBase64(bytes[3..]);
      Base64SextetsAppend(EncodeChunk(bytes[..3]), ToBase64(bytes[3..]));
    }
  }

  lemma {:induction false} DecodeEncodedSextets(bytes: seq<byte>)
    ensures |EncodedSextets(bytes)| % 4 != 1
    ensures DecodeSextets(EncodedSextets(bytes)) == bytes
    decreases |bytes|
  {
    EncodedSextetsLength(bytes);
    if bytes == [] {
    } else if |bytes| < 3 {
      ChunkSextetsDecode(bytes);
    } else {
      var head, rest := bytes[..3], bytes[3..];
      ChunkSextetsDecode(head);
      DecodeEncodedSextets(rest);
      var ss := EncodedSextets(bytes);
      assert ss == ChunkSextets(head) + EncodedSextets(rest);
      assert ss[..4] == ChunkSextets(head);
      assert ss[4..] == EncodedSextets(rest);
      assert bytes == head + rest;
    }
  }

  /** The unused low bits of a final partial group are discarded, not
      checked: `QR==` and `QQ==` differ only in them and decode alike. */
  lemma LowBitsIgnored()
    ensures Base64Decode("QR==") == Ok([0x41])
    ensures Base64Decode("QQ==") == Ok([0x41])
  {
    PaddingSextets("==");
    LowBitsGroup('R', 17);
    LowBitsGroup('Q', 16);
    assert DecodeChunk([16, 17]) == [0x41];
    assert DecodeChunk([16, 16]) == [0x41];
  }

  /** `Q` followed by a symbol and `==` yields the sextets 16 and that
      symbol's value. */
  lemma LowBitsGroup(c: char, v: byte)
    requires Base64charToSextet(c) == Ok(v)
    ensures Base64Sextets(['Q', c, '=', '=']) == Ok([16, v])
  {
    var s := ['Q', c, '=', '='];
    assert s[1..] == [c, '=', '='];
    var t := s[1..];
    assert t[0] == c && t[1..] == "==";
    PaddingSextets("==");
    assert [v] + [] == [v];
    assert Base64Sextets(t) == SextetCons(Ok(v), Ok([]));
    assert [16 as byte] + [v] == [16, v];
  }

  /** `from_base64` inverts `to_base64`. */
  lemma Base64RoundTrip(bytes: seq<byte>)
    ensures Base64Decode(ToBase64(bytes)) == Ok(bytes)
  {
    EncodedSextetsOfToBase64(bytes);
    DecodeEncodedSextets(bytes);
  }

  // Test vectors

  /** The hex test vector of the source's unit tests. */
  lemma HelloHex()
    ensures ToHex([0x48, 0x65, 0x6C, 0x6C, 0x6F]) == "48656C6C6F"
    ensures FromHex("48656C6C6F") == Ok([0x48, 0x65, 0x6C, 0x6C, 0x6F])
  {
    var b: seq<byte> := [0x48, 0x65, 0x6C, 0x6C, 0x6F];
    assert b[1..] == [0x65, 0x6C, 0x6C, 0x6F];
    HexRoundTrip(b);
  }
  /** The Base64 test vector of the source's unit tests. */
  lemma HelloBase64()
    ensures ToBase64([0x48, 0x65, 0x6C, 0x6C, 0x6F]) == "SGVsbG8="
    ensures Base64Decode("SGVsbG8=") == Ok([0x48, 0x65, 0x6C, 0x6C, 0x6F])
  {
    var b: seq<byte> := [0x48, 0x65, 0x6C, 0x6C, 0x6F];
    assert b[..3] == [0x48, 0x65, 0x6C];
    assert b[3..] == [0x6C, 0x6F];
    Base64CharsAt(18); Base64CharsAt(6); Base64CharsAt(21); Base64CharsAt(44);
    Base64CharsAt(27); Base64CharsAt(60);
    assert EncodeChunk([0x48, 0x65, 0x6C]) == "SGVs";
    assert EncodeChunk([0x6C, 0x6F]) == "bG8=";
    Base64RoundTrip(b);
  }
}
