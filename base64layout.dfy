/** The bit layout of the Base64 codec of `rust/src/bytestring.rs`: what
    the closures of `to_base64` and `from_base64` do to the bits of a
    chunk, stated against plain big-endian readings of sextets and bytes. */
module Base64Layout {
  import opened Prelude
  import opened ByteString

  /** Sextets read as one big-endian bit string: 6 bits per sextet, the
      first sextet in the highest bits. */
  ghost function SextetWindow(ss: seq<byte>): bv24
    requires |ss| <= 4
  {
    if ss == [] then 0 else (SextetWindow(ss[..|ss| - 1]) << 6) | ss[|ss| - 1] as bv24
  }

  /** Bytes read as one big-endian bit string: 8 bits per byte, the first
      byte in the highest bits. */
  ghost function ByteWindow(bs: seq<byte>): bv24
    requires |bs| <= 3
  {
    if bs == [] then 0 else (ByteWindow(bs[..|bs| - 1]) << 8) | bs[|bs| - 1] as bv24
  }

  lemma ShiftInSecond(w: bv24, x: bv24, y: bv24, z: bv24)
    ensures w == (x << 6) | y ==> (w << 6) | z == (x << 12) | (y << 6) | z
  {
  }

  lemma ShiftInThird(w: bv24, x: bv24, y: bv24, z: bv24, t: bv24)
    ensures w == (x << 12) | (y << 6) | z ==> (w << 6) | t == (x << 18) | (y << 12) | (z << 6) | t
  {
  }

  lemma SextetWindowTwo(ss: seq<byte>)
    requires 2 <= |ss| <= 4
    ensures SextetWindow(ss[..2]) == (ss[0] as bv24 << 6) | ss[1] as bv24
  {
    assert ss[..1][..0] == [];
    assert SextetWindow(ss[..1]) == ss[0] as bv24;
    assert ss[..2][..1] == ss[..1];
  }

  lemma SextetWindowThree(ss: seq<byte>)
    requires 3 <= |ss| <= 4
    ensures SextetWindow(ss[..3]) == (ss[0] as bv24 << 12) | (ss[1] as bv24 << 6) | ss[2] as bv24
  {
    SextetWindowTwo(ss);
    assert ss[..3][..2] == ss[..2];
    ShiftInSecond(SextetWindow(ss[..2]), ss[0] as bv24, ss[1] as bv24, ss[2] as bv24);
  }

  lemma SextetWindowFour(ss: seq<byte>)
    requires |ss| == 4
    ensures SextetWindow(ss) == (ss[0] as bv24 << 18) | (ss[1] as bv24 << 12) | (ss[2] as bv24 << 6) | ss[3] as bv24
  {
    SextetWindowThree(ss);
    assert ss[..3] == ss[..|ss| - 1];
    ShiftInThird(SextetWindow(ss[..3]), ss[0] as bv24, ss[1] as bv24, ss[2] as bv24, ss[3] as bv24);
  }

  lemma ShiftInByte(w: bv24, x: bv24, y: bv24, z: bv24)
    ensures w == (x << 8) | y ==> (w << 8) | z == (x << 16) | (y << 8) | z
  {
  }

  lemma ByteWindowTwo(bs: seq<byte>)
    requires 2 <= |bs| <= 3
    ensures ByteWindow(bs[..2]) == (bs[0] as bv24 << 8) | bs[1] as bv24
  {
    assert bs[..1][..0] == [];
    assert ByteWindow(bs[..1]) == bs[0] as bv24;
    assert bs[..2][..1] == bs[..1];
  }

  lemma ByteWindowAt(bs: seq<byte>)
    requires 1 <= |bs| <= 3
    ensures |bs| == 1 ==> ByteWindow(bs) == bs[0] as bv24
    ensures |bs| == 2 ==> ByteWindow(bs) == (bs[0] as bv24 << 8) | bs[1] as bv24
    ensures |bs| == 3 ==> ByteWindow(bs) == (bs[0] as bv24 << 16) | (bs[1] as bv24 << 8) | bs[2] as bv24
  {
    if |bs| == 1 {
      assert bs[..0] == [];
    } else {
      ByteWindowTwo(bs);
      if |bs| == 2 {
        assert bs[..2] == bs;
      } else {
        assert bs[..2] == bs[..|bs| - 1];
        ShiftInByte(ByteWindow(bs[..2]), bs[0] as bv24, bs[1] as bv24, bs[2] as bv24);
      }
    }
  }

  lemma SextetWindowOfTwo(a: byte, b: byte)
    ensures SextetWindow([a, b]) == (a as bv24 << 6) | b as bv24
  {
    SextetWindowTwo([a, b]);
    assert [a, b][..2] == [a, b];
  }

  lemma SextetWindowOfThree(a: byte, b: byte, c: byte)
    ensures SextetWindow([a, b, c]) == (a as bv24 << 12) | (b as bv24 << 6) | c as bv24
  {
    SextetWindowThree([a, b, c]);
    assert [a, b, c][..3] == [a, b, c];
  }

  lemma SextetWindowOfFour(a: byte, b: byte, c: byte, d: byte)
    ensures SextetWindow([a, b, c, d]) == (a as bv24 << 18) | (b as bv24 << 12) | (c as bv24 << 6) | d as bv24
  {
    SextetWindowFour([a, b, c, d]);
  }

  lemma PackOne(a: byte, s0: byte, s1: byte)
    requires s0 == a >> 2 && s1 == (a & 0x03) << 4
    ensures (s0 as bv24 << 6) | s1 as bv24 == a as bv24 << 4
  {
  }

  lemma PackTwo(a: byte, b: byte, s0: byte, s1: byte, s2: byte)
    requires s0 == a >> 2 && s1 == ((a & 0x03) << 4) ^ (b >> 4) && s2 == (b & 0x0F) << 2
    ensures (s0 as bv24 << 12) | (s1 as bv24 << 6) | s2 as bv24 == ((a as bv24 << 8) | b as bv24) << 2
  {
  }

  lemma PackThree(a: byte, b: byte, c: byte, s0: byte, s1: byte, s2: byte, s3: byte)
    requires s0 == a >> 2 && s1 == ((a & 0x03) << 4) ^ (b >> 4)
    requires s2 == ((b & 0x0F) << 2) ^ (c >> 6) && s3 == c & 0x3F
    ensures (s0 as bv24 << 18) | (s1 as bv24 << 12) | (s2 as bv24 << 6) | s3 as bv24
      == (a as bv24 << 16) | (b as bv24 << 8) | c as bv24
  {
  }

  lemma ByteWindowOfOne(a: byte)
    ensures ByteWindow([a]) == a as bv24
  {
    ByteWindowAt([a]);
  }

  lemma ByteWindowOfTwo(a: byte, b: byte)
    ensures ByteWindow([a, b]) == (a as bv24 << 8) | b as bv24
  {
    ByteWindowAt([a, b]);
  }

  lemma ByteWindowOfThree(a: byte, b: byte, c: byte)
    ensures ByteWindow([a, b, c]) == (a as bv24 << 16) | (b as bv24 << 8) | c as bv24
  {
    ByteWindowAt([a, b, c]);
  }

  lemma ChunkWindowOfOne(a: byte)
    ensures |ChunkSextets([a])| == 2
    ensures SextetWindow(ChunkSextets([a])) == ByteWindow([a]) << 4
  {
    var ss := ChunkSextets([a]);
    ChunkSextetsOneAt(a);
    assert ss == [ss[0], ss[1]];
    SextetWindowOfTwo(ss[0], ss[1]);
    ByteWindowOfOne(a);
    PackOne(a, ss[0], ss[1]);
  }

  lemma EncodedWindowTwo(a: byte, b: byte, s0: byte, s1: byte, s2: byte)
    requires s0 == a >> 2 && s1 == ((a & 0x03) << 4) ^ (b >> 4) && s2 == (b & 0x0F) << 2
    ensures SextetWindow([s0, s1, s2]) == ByteWindow([a, b]) << 2
  {
    SextetWindowOfThree(s0, s1, s2);
    ByteWindowOfTwo(a, b);
    PackTwo(a, b, s0, s1, s2);
  }

  lemma ChunkWindowOfTwo(a: byte, b: byte)
    ensures |ChunkSextets([a, b])| == 3
    ensures SextetWindow(ChunkSextets([a, b])) == ByteWindow([a, b]) << 2
  {
    var ss := ChunkSextets([a, b]);
    ChunkSextetsTwoAt(a, b);
    assert ss == [ss[0], ss[1], ss[2]];
    EncodedWindowTwo(a, b, ss[0], ss[1], ss[2]);
  }

  lemma ChunkWindowOfThree(a: byte, b: byte, c: byte)
    ensures |ChunkSextets([a, b, c])| == 4
    ensures SextetWindow(ChunkSextets([a, b, c])) == ByteWindow([a, b, c])
  {
    var ss := ChunkSextets([a, b, c]);
    ChunkSextetsThreeAt(a, b, c);
    assert ss == [ss[0], ss[1], ss[2], ss[3]];
    SextetWindowOfFour(ss[0], ss[1], ss[2], ss[3]);
    ByteWindowOfThree(a, b, c);
    PackThree(a, b, c, ss[0], ss[1], ss[2], ss[3]);
  }

  /** The bit layout of `to_base64`: the sextets of a chunk are its bytes'
      bits, high bit first, followed by zero bits up to a multiple of 6. */
  lemma ChunkWindow(chunk: seq<byte>)
    requires 1 <= |chunk| <= 3
    ensures |ChunkSextets(chunk)| == |chunk| + 1
    ensures |chunk| == 1 ==> SextetWindow(ChunkSextets(chunk)) == ByteWindow(chunk) << 4
    ensures |chunk| == 2 ==> SextetWindow(ChunkSextets(chunk)) == ByteWindow(chunk) << 2
    ensures |chunk| == 3 ==> SextetWindow(ChunkSextets(chunk)) == ByteWindow(chunk)
  {
    if |chunk| == 1 {
      ChunkWindowOne(chunk);
    } else if |chunk| == 2 {
      ChunkWindowTwo(chunk);
    } else {
      ChunkWindowThree(chunk);
    }
  }

  lemma ChunkWindowOne(chunk: seq<byte>)
    requires |chunk| == 1
    ensures |ChunkSextets(chunk)| == 2
    ensures SextetWindow(ChunkSextets(chunk)) == ByteWindow(chunk) << 4
  {
    assert chunk == [chunk[0]];
    ChunkWindowOfOne(chunk[0]);
  }

  lemma ChunkWindowTwo(chunk: seq<byte>)
    requires |chunk| == 2
    ensures |ChunkSextets(chunk)| == 3
    ensures SextetWindow(ChunkSextets(chunk)) == ByteWindow(chunk) << 2
  {
    assert chunk == [chunk[0], chunk[1]];
    ChunkWindowOfTwo(chunk[0], chunk[1]);
  }

  lemma ChunkWindowThree(chunk: seq<byte>)
    requires |chunk| == 3
    ensures |ChunkSextets(chunk)| == 4
    ensures SextetWindow(ChunkSextets(chunk)) == ByteWindow(chunk)
  {
    assert chunk == [chunk[0], chunk[1], chunk[2]];
    ChunkWindowOfThree(chunk[0], chunk[1], chunk[2]);
  }

  lemma UnpackTwo(a: byte, b: byte, x: byte)
    requires a < 64 && b < 64
    requires x == (a << 2) ^ (b >> 4)
    ensures x as bv24 == ((a as bv24 << 6) | b as bv24) >> 4
  {
  }

  lemma UnpackThree(a: byte, b: byte, c: byte, x: byte, y: byte)
    requires a < 64 && b < 64 && c < 64
    requires x == (a << 2) ^ (b >> 4) && y == ((b & 0x0F) << 4) ^ (c >> 2)
    ensures (x as bv24 << 8) | y as bv24 == ((a as bv24 << 12) | (b as bv24 << 6) | c as bv24) >> 2
  {
  }

  lemma UnpackFour(a: byte, b: byte, c: byte, d: byte, x: byte, y: byte, z: byte)
    requires a < 64 && b < 64 && c < 64 && d < 64
    requires x == (a << 2) ^ (b >> 4) && y == ((b & 0x0F) << 4) ^ (c >> 2) && z == ((c & 0x03) << 6) ^ d
    ensures (x as bv24 << 16) | (y as bv24 << 8) | z as bv24
      == (a as bv24 << 18) | (b as bv24 << 12) | (c as bv24 << 6) | d as bv24
  {
  }

  lemma DecodeWindowOfTwo(a: byte, b: byte)
    requires a < 64 && b < 64
    ensures ByteWindow(DecodeChunk([a, b])) == SextetWindow([a, b]) >> 4
  {
    var x := (a << 2) ^ (b >> 4);
    DecodeTwoAt(a, b);
    ByteWindowOfOne(x);
    SextetWindowOfTwo(a, b);
    UnpackTwo(a, b, x);
  }

  lemma DecodedWindowThree(a: byte, b: byte, c: byte, x: byte, y: byte)
    requires a < 64 && b < 64 && c < 64
    requires x == (a << 2) ^ (b >> 4) && y == ((b & 0x0F) << 4) ^ (c >> 2)
    ensures ByteWindow([x, y]) == SextetWindow([a, b, c]) >> 2
  {
    ByteWindowOfTwo(x, y);
    SextetWindowOfThree(a, b, c);
    UnpackThree(a, b, c, x, y);
  }

  lemma DecodeWindowOfThree(a: byte, b: byte, c: byte)
    requires a < 64 && b < 64 && c < 64
    ensures ByteWindow(DecodeChunk([a, b, c])) == SextetWindow([a, b, c]) >> 2
  {
    var r := DecodeChunk([a, b, c]);
    DecodeThreeAt(a, b, c);
    assert r == [r[0], r[1]];
    DecodedWindowThree(a, b, c, r[0], r[1]);
  }

  lemma DecodeWindowOfFour(a: byte, b: byte, c: byte, d: byte)
    requires a < 64 && b < 64 && c < 64 && d < 64
    ensures ByteWindow(DecodeChunk([a, b, c, d])) == SextetWindow([a, b, c, d])
  {
    var x, y, z := (a << 2) ^ (b >> 4), ((b & 0x0F) << 4) ^ (c >> 2), ((c & 0x03) << 6) ^ d;
    DecodeFourAt(a, b, c, d);
    ByteWindowOfThree(x, y, z);
    SextetWindowOfFour(a, b, c, d);
    UnpackFour(a, b, c, d, x, y, z);
  }

  /** The bit layout of `from_base64`: the bytes of a group are the
      group's bits, high bit first, with the bits short of a whole byte
      dropped. */
  lemma DecodeChunkWindow(ss: seq<byte>)
    requires 2 <= |ss| <= 4
    requires forall k :: 0 <= k < |ss| ==> ss[k] < 64
    ensures |ss| == 2 ==> ByteWindow(DecodeChunk(ss)) == SextetWindow(ss) >> 4
    ensures |ss| == 3 ==> ByteWindow(DecodeChunk(ss)) == SextetWindow(ss) >> 2
    ensures |ss| == 4 ==> ByteWindow(DecodeChunk(ss)) == SextetWindow(ss)
  {
    if |ss| == 2 {
      DecodeWindowTwo(ss);
    } else if |ss| == 3 {
      DecodeWindowThree(ss);
    } else {
      DecodeWindowFour(ss);
    }
  }

  lemma DecodeWindowTwo(ss: seq<byte>)
    requires |ss| == 2 && ss[0] < 64 && ss[1] < 64
    ensures ByteWindow(DecodeChunk(ss)) == SextetWindow(ss) >> 4
  {
    assert ss == [ss[0], ss[1]];
    DecodeWindowOfTwo(ss[0], ss[1]);
  }

  lemma DecodeWindowThree(ss: seq<byte>)
    requires |ss| == 3 && ss[0] < 64 && ss[1] < 64 && ss[2] < 64
    ensures ByteWindow(DecodeChunk(ss)) == SextetWindow(ss) >> 2
  {
    assert ss == [ss[0], ss[1], ss[2]];
    DecodeWindowOfThree(ss[0], ss[1], ss[2]);
  }

  lemma DecodeWindowFour(ss: seq<byte>)
    requires |ss| == 4 && ss[0] < 64 && ss[1] < 64 && ss[2] < 64 && ss[3] < 64
    ensures ByteWindow(DecodeChunk(ss)) == SextetWindow(ss)
  {
    assert ss == [ss[0], ss[1], ss[2], ss[3]];
    DecodeWindowOfFour(ss[0], ss[1], ss[2], ss[3]);
  }

  lemma RepackTwo(a: byte, b: byte, x: byte)
    requires a < 64 && b < 64
    requires x == (a << 2) ^ (b >> 4)
    ensures x >> 2 == a
    ensures (x & 0x03) << 4 == b <==> b & 0x0F == 0
  {
  }

  lemma RepackThree(a: byte, b: byte, c: byte, x: byte, y: byte)
    requires a < 64 && b < 64 && c < 64
    requires x == (a << 2) ^ (b >> 4) && y == ((b & 0x0F) << 4) ^ (c >> 2)
    ensures x >> 2 == a
    ensures ((x & 0x03) << 4) ^ (y >> 4) == b
    ensures (y & 0x0F) << 2 == c <==> c & 0x03 == 0
  {
  }

  lemma RepackFour(a: byte, b: byte, c: byte, d: byte, x: byte, y: byte, z: byte)
    requires a < 64 && b < 64 && c < 64 && d < 64
    requires x == (a << 2) ^ (b >> 4) && y == ((b & 0x0F) << 4) ^ (c >> 2) && z == ((c & 0x03) << 6) ^ d
    ensures x >> 2 == a
    ensures ((x & 0x03) << 4) ^ (y >> 4) == b
    ensures ((y & 0x0F) << 2) ^ (z >> 6) == c
    ensures z & 0x3F == d
  {
  }

  lemma SameUpToLast(e: seq<byte>, ss: seq<byte>)
    requires |e| == |ss| >= 1
    requires forall k :: 0 <= k < |e| - 1 ==> e[k] == ss[k]
    ensures e == ss <==> e[|e| - 1] == ss[|ss| - 1]
  {
    if e[|e| - 1] == ss[|ss| - 1] {
      assert forall k :: 0 <= k < |e| ==> e[k] == ss[k];
    }
  }

  lemma DecodeTwoAt(a: byte, b: byte)
    ensures DecodeChunk([a, b]) == [(a << 2) ^ (b >> 4)]
  {
  }

  lemma DecodeThreeAt(a: byte, b: byte, c: byte)
    ensures DecodeChunk([a, b, c]) == [(a << 2) ^ (b >> 4), ((b & 0x0F) << 4) ^ (c >> 2)]
  {
  }

  lemma DecodeFourAt(a: byte, b: byte, c: byte, d: byte)
    ensures DecodeChunk([a, b, c, d]) == [(a << 2) ^ (b >> 4), ((b & 0x0F) << 4) ^ (c >> 2), ((c & 0x03) << 6) ^ d]
  {
  }

  lemma ChunkSextetsOneAt(x: byte)
    ensures |ChunkSextets([x])| == 2
    ensures ChunkSextets([x])[0] == x >> 2
    ensures ChunkSextets([x])[1] == (x & 0x03) << 4
  {
  }

  lemma ChunkSextetsTwoAt(x: byte, y: byte)
    ensures |ChunkSextets([x, y])| == 3
    ensures ChunkSextets([x, y])[0] == x >> 2
    ensures ChunkSextets([x, y])[1] == ((x & 0x03) << 4) ^ (y >> 4)
    ensures ChunkSextets([x, y])[2] == (y & 0x0F) << 2
  {
  }

  lemma ChunkSextetsThreeAt(x: byte, y: byte, z: byte)
    ensures |ChunkSextets([x, y, z])| == 4
    ensures ChunkSextets([x, y, z])[0] == x >> 2
    ensures ChunkSextets([x, y, z])[1] == ((x & 0x03) << 4) ^ (y >> 4)
    ensures ChunkSextets([x, y, z])[2] == ((y & 0x0F) << 2) ^ (z >> 6)
    ensures ChunkSextets([x, y, z])[3] == z & 0x3F
  {
  }

  lemma CanonicalTwo(a: byte, b: byte)
    requires a < 64 && b < 64
    ensures ChunkSextets(DecodeChunk([a, b])) == [a, b] <==> b & 0x0F == 0
  {
    var x := (a << 2) ^ (b >> 4);
    DecodeTwoAt(a, b);
    ChunkSextetsOneAt(x);
    RepackTwo(a, b, x);
    SameUpToLast(ChunkSextets([x]), [a, b]);
  }

  lemma CanonicalThree(a: byte, b: byte, c: byte)
    requires a < 64 && b < 64 && c < 64
    ensures ChunkSextets(DecodeChunk([a, b, c])) == [a, b, c] <==> c & 0x03 == 0
  {
    var x, y := (a << 2) ^ (b >> 4), ((b & 0x0F) << 4) ^ (c >> 2);
    DecodeThreeAt(a, b, c);
    ChunkSextetsTwoAt(x, y);
    RepackThree(a, b, c, x, y);
    SameUpToLast(ChunkSextets([x, y]), [a, b, c]);
  }

  lemma CanonicalFour(a: byte, b: byte, c: byte, d: byte)
    requires a < 64 && b < 64 && c < 64 && d < 64
    ensures ChunkSextets(DecodeChunk([a, b, c, d])) == [a, b, c, d]
  {
    var x, y, z := (a << 2) ^ (b >> 4), ((b & 0x0F) << 4) ^ (c >> 2), ((c & 0x03) << 6) ^ d;
    DecodeFourAt(a, b, c, d);
    ChunkSextetsThreeAt(x, y, z);
    RepackFour(a, b, c, d, x, y, z);
    SameUpToLast(ChunkSextets([x, y, z]), [a, b, c, d]);
  }

  /** Decoding a group and encoding the bytes again gives the group back
      exactly when the group's bits short of a whole byte are zero; a full
      group of four always comes back. */
  lemma DecodeChunkCanonical(ss: seq<byte>)
    requires 2 <= |ss| <= 4
    requires forall k :: 0 <= k < |ss| ==> ss[k] < 64
    ensures |ss| == 2 ==> (ChunkSextets(DecodeChunk(ss)) == ss <==> ss[1] & 0x0F == 0)
    ensures |ss| == 3 ==> (ChunkSextets(DecodeChunk(ss)) == ss <==> ss[2] & 0x03 == 0)
    ensures |ss| == 4 ==> ChunkSextets(DecodeChunk(ss)) == ss
  {
    if |ss| == 2 {
      CanonicalTwo(ss[0], ss[1]);
      assert ss == [ss[0], ss[1]];
    } else if |ss| == 3 {
      CanonicalThree(ss[0], ss[1], ss[2]);
      assert ss == [ss[0], ss[1], ss[2]];
    } else {
      CanonicalFour(ss[0], ss[1], ss[2], ss[3]);
      assert ss == [ss[0], ss[1], ss[2], ss[3]];
    }
  }
}
