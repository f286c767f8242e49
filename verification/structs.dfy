/**
 * The fixed-layout navigation-mesh records and their little-endian codec.
 * Every field is one 32-bit word; a record is written as its words in
 * declaration order, word k at byte offset 4k. Float fields are carried as
 * their IEEE 754 bit patterns, which is all the codec ever touches.
 */
module Structs {
  import opened LittleEndian

  datatype Option<T> = None | Some(value: T)

  datatype Result<T> = Success(value: T) | Failure(error: string)

  /** A float32 field as its bit pattern: Float32bits and Float32frombits
      convert between the two without changing a bit. */
  datatype Float32 = Float32(bits: uint32)

  /** A [3]float32 field, elements [0], [1], [2] in that order. */
  datatype Vec3 = Vec3(x: Float32, y: Float32, z: Float32)

  /** The configuration of a multi-tile navigation mesh. */
  datatype NavMeshParams = NavMeshParams(
    orig: Vec3,          // world-space origin of the tile space
    tileWidth: Float32,  // width of each tile, along x
    tileHeight: Float32, // height of each tile, along z
    maxTiles: uint32,    // most tiles the mesh can contain
    maxPolys: uint32)    // most polygons each tile can contain
  {
    /** The encoded size in bytes, the same for every value. */
    function Size(): (n: nat)
      ensures n == |Encode()|
    {
      28
    }

    /** The words Serialize writes, in order. */
    function Words(): (ws: seq<uint32>)
      ensures |ws| == 7
    {
      [orig.x.bits, orig.y.bits, orig.z.bits, tileWidth.bits, tileHeight.bits, maxTiles, maxPolys]
    }

    /** The bytes Serialize writes: the seven words, read back in order
        from it. */
    function Encode(): (b: seq<uint8>)
      ensures |b| == 28 && DecodeWords(b, 7) == Words()
    {
      DecodeEncodeWords(Words(), []);
      assert EncodeWords(Words()) + [] == EncodeWords(Words());
      EncodeWords(Words())
    }

    /** Serialize: on a destination with fewer than Size() bytes from start
        on, fails and writes nothing; otherwise writes Encode() at start and
        leaves every other byte as it was. */
    method Serialize(dst: array<uint8>, start: nat) returns (ok: bool)
      requires start <= dst.Length
      modifies dst
      ensures ok <==> dst.Length - start >= Size()
      ensures ok ==> dst[..] == Splice(old(dst[..]), start, Encode())
      ensures !ok ==> dst[..] == old(dst[..])
    {
      if dst.Length - start < Size() {
        return false;
      }
      ghost var a := dst[..];
      ghost var ws := Words();
      assert a == Splice(a, start, EncodeWords(ws[..0]));
      PutRunWord(dst, start, orig.x.bits, a, start, ws, 0);
      PutRunWord(dst, start + 4, orig.y.bits, a, start, ws, 1);
      PutRunWord(dst, start + 8, orig.z.bits, a, start, ws, 2);
      PutRunWord(dst, start + 12, tileWidth.bits, a, start, ws, 3);
      PutRunWord(dst, start + 16, tileHeight.bits, a, start, ws, 4);
      PutRunWord(dst, start + 20, maxTiles, a, start, ws, 5);
      PutRunWord(dst, start + 24, maxPolys, a, start, ws, 6);
      assert ws[..7] == ws;
      return true;
    }
  }

  /** The parameters whose words are ws, read in the order Words writes. */
  function ParamsFromWords(ws: seq<uint32>): NavMeshParams
    requires |ws| == 7
  {
    NavMeshParams(Vec3(Float32(ws[0]), Float32(ws[1]), Float32(ws[2])), Float32(ws[3]), Float32(ws[4]), ws[5], ws[6])
  }

  /** The parameter encoding is lossless: its words read back the value, and
      two values that encode alike are equal. */
  lemma ParamsRoundTrip(p: NavMeshParams, q: NavMeshParams)
    ensures ParamsFromWords(DecodeWords(p.Encode(), 7)) == p
    ensures p.Encode() == q.Encode() ==> p == q
  {
    DecodeEncodeWords(p.Words(), []);
    assert p.Encode() + [] == p.Encode();
    DecodeEncodeWords(q.Words(), []);
    assert q.Encode() + [] == q.Encode();
  }

  /** The parameter layout: the seven fields at offsets 0, 4, ..., 24. */
  lemma ParamsLayout(p: NavMeshParams)
    ensures p.Encode()[0..4] == PutUint32(p.orig.x.bits)
    ensures p.Encode()[4..8] == PutUint32(p.orig.y.bits)
    ensures p.Encode()[8..12] == PutUint32(p.orig.z.bits)
    ensures p.Encode()[12..16] == PutUint32(p.tileWidth.bits)
    ensures p.Encode()[16..20] == PutUint32(p.tileHeight.bits)
    ensures p.Encode()[20..24] == PutUint32(p.maxTiles)
    ensures p.Encode()[24..28] == PutUint32(p.maxPolys)
  {
    var ws := p.Words();
    EncodeWordAt(ws, 0);
    EncodeWordAt(ws, 1);
    EncodeWordAt(ws, 2);
    EncodeWordAt(ws, 3);
    EncodeWordAt(ws, 4);
    EncodeWordAt(ws, 5);
    EncodeWordAt(ws, 6);
  }

  /** The header of a saved navigation-mesh set. */
  datatype NavMeshSetHeader = NavMeshSetHeader(
    magic: int32,
    version: int32,
    numTiles: int32,
    params: NavMeshParams)
  {
    /** The encoded size: three words and then the parameters. */
    function Size(): (n: nat)
      ensures n == |Encode()| && n == 40
    {
      12 + params.Size()
    }

    /** The three words of the header's own fields, in order. */
    function Words(): (ws: seq<uint32>)
      ensures |ws| == 3
    {
      [Int32Bits(magic), Int32Bits(version), Int32Bits(numTiles)]
    }

    /** The bytes Serialize writes: the three words, read back in order from
        it, then the parameters. */
    function Encode(): (b: seq<uint8>)
      ensures |b| == 40 && DecodeWords(b, 3) == Words() && b[12..] == params.Encode()
    {
      DecodeEncodeWords(Words(), params.Encode());
      EncodeWords(Words()) + params.Encode()
    }

    /** Serialize: on a destination with fewer than Size() bytes from start
        on, fails and writes nothing; otherwise writes Encode() at start and
        leaves every other byte as it was. */
    method Serialize(dst: array<uint8>, start: nat) returns (ok: bool)
      requires start <= dst.Length
      modifies dst
      ensures ok <==> dst.Length - start >= Size()
      ensures ok ==> dst[..] == Splice(old(dst[..]), start, Encode())
      ensures !ok ==> dst[..] == old(dst[..])
    {
      if dst.Length - start < Size() {
        return false;
      }
      ghost var a := dst[..];
      ghost var ws := Words();
      assert a == Splice(a, start, EncodeWords(ws[..0]));
      PutRunWord(dst, start, Int32Bits(magic), a, start, ws, 0);
      PutRunWord(dst, start + 4, Int32Bits(version), a, start, ws, 1);
      PutRunWord(dst, start + 8, Int32Bits(numTiles), a, start, ws, 2);
      assert ws[..3] == ws;
      ok := params.Serialize(dst, start + 12);
      SpliceAfter(a, start, EncodeWords(ws), params.Encode());
    }
  }

  /** The set-header layout: magic, version and tile count at offsets 0, 4
      and 8 as two's-complement words, the parameters at [12, 40). */
  lemma SetHeaderLayout(s: NavMeshSetHeader)
    ensures s.Encode()[0..4] == PutUint32(Int32Bits(s.magic))
    ensures s.Encode()[4..8] == PutUint32(Int32Bits(s.version))
    ensures s.Encode()[8..12] == PutUint32(Int32Bits(s.numTiles))
    ensures s.Encode()[12..40] == s.params.Encode()
  {
    var ws := s.Words();
    assert s.Encode()[..12] == EncodeWords(ws);
    EncodeWordAt(ws, 0);
    EncodeWordAt(ws, 1);
    EncodeWordAt(ws, 2);
    assert s.Encode()[0..4] == EncodeWords(ws)[0..4];
    assert s.Encode()[4..8] == EncodeWords(ws)[4..8];
    assert s.Encode()[8..12] == EncodeWords(ws)[8..12];
  }

  /** The set-header encoding is lossless: two headers that encode alike
      are equal. */
  lemma SetHeaderInjective(s: NavMeshSetHeader, t: NavMeshSetHeader)
    requires s.Encode() == t.Encode()
    ensures s == t
  {
    assert s.Encode()[..12] == EncodeWords(s.Words()) && t.Encode()[..12] == EncodeWords(t.Words());
    EncodeWordsInjective(s.Words(), t.Words());
    Int32RoundTrip(s.magic);
    Int32RoundTrip(t.magic);
    Int32RoundTrip(s.version);
    Int32RoundTrip(t.version);
    Int32RoundTrip(s.numTiles);
    Int32RoundTrip(t.numTiles);
    assert s.Encode()[12..] == s.params.Encode() && t.Encode()[12..] == t.params.Encode();
    ParamsRoundTrip(s.params, t.params);
  }

  /** The high-level description of one mesh tile. */
  datatype MeshHeader = MeshHeader(
    magic: int32,           // tile magic number
    version: int32,         // tile data format version
    x: int32,               // tile grid position
    y: int32,
    layer: int32,
    userId: uint32,         // user-defined tile id
    polyCount: int32,
    vertCount: int32,
    maxLinkCount: int32,
    detailMeshCount: int32,
    detailVertCount: int32,
    detailTriCount: int32,
    bvNodeCount: int32,
    offMeshConCount: int32,
    offMeshBase: int32,     // first polygon that is an off-mesh connection
    walkableHeight: Float32,
    walkableRadius: Float32,
    walkableClimb: Float32,
    bmin: Vec3,             // bounds of the tile's box
    bmax: Vec3,
    bvQuantFactor: Float32)
  {
    /** The encoded size in bytes, the same for every value. */
    function Size(): (n: nat)
      ensures n == |Encode()|
    {
      100
    }

    /** The 25 words Serialize writes, in declaration order: signed fields
        as two's-complement words, float fields as their bit patterns. */
    function Words(): (ws: seq<uint32>)
      ensures |ws| == 25
    {
      [Int32Bits(magic), Int32Bits(version), Int32Bits(x), Int32Bits(y), Int32Bits(layer),
       userId,
       Int32Bits(polyCount), Int32Bits(vertCount), Int32Bits(maxLinkCount),
       Int32Bits(detailMeshCount), Int32Bits(detailVertCount), Int32Bits(detailTriCount),
       Int32Bits(bvNodeCount), Int32Bits(offMeshConCount), Int32Bits(offMeshBase),
       walkableHeight.bits, walkableRadius.bits, walkableClimb.bits,
       bmin.x.bits, bmin.y.bits, bmin.z.bits,
       bmax.x.bits, bmax.y.bits, bmax.z.bits,
       bvQuantFactor.bits]
    }

    /** The bytes Serialize writes: the 25 words, read back in order from
        it. */
    function Encode(): (b: seq<uint8>)
      ensures |b| == 100 && DecodeWords(b, 25) == Words()
    {
      DecodeEncodeWords(Words(), []);
      assert EncodeWords(Words()) + [] == EncodeWords(Words());
      EncodeWords(Words())
    }

    /** Serialize: on a destination with fewer than Size() bytes from start
        on, fails and writes nothing; otherwise writes Encode() at start and
        leaves every other byte as it was. The fields are written one
        PutUint32 at a time, field k at offset 4k, walking Words(). */
    method Serialize(dst: array<uint8>, start: nat) returns (ok: bool)
      requires start <= dst.Length
      modifies dst
      ensures ok <==> dst.Length - start >= Size()
      ensures ok ==> dst[..] == Splice(old(dst[..]), start, Encode())
      ensures !ok ==> dst[..] == old(dst[..])
    {
      if dst.Length - start < Size() {
        return false;
      }
      ghost var a := dst[..];
      var ws := Words();
      for k := 0 to 25
        invariant dst[..] == Splice(a, start, EncodeWords(ws[..k]))
      {
        PutRunWord(dst, start + 4 * k, ws[k], a, start, ws, k);
      }
      assert ws[..25] == ws;
      return true;
    }
  }

  /** The header whose words are ws, each word read back into the field
      that Words writes it from: writing its fields gives back ws. */
  function HeaderFromWords(ws: seq<uint32>): (h: MeshHeader)
    requires |ws| == 25
    ensures h.Words() == ws
  {
    var h := MeshHeader(
      Int32FromBits(ws[0]), Int32FromBits(ws[1]), Int32FromBits(ws[2]), Int32FromBits(ws[3]), Int32FromBits(ws[4]),
      ws[5],
      Int32FromBits(ws[6]), Int32FromBits(ws[7]), Int32FromBits(ws[8]),
      Int32FromBits(ws[9]), Int32FromBits(ws[10]), Int32FromBits(ws[11]),
      Int32FromBits(ws[12]), Int32FromBits(ws[13]), Int32FromBits(ws[14]),
      Float32(ws[15]), Float32(ws[16]), Float32(ws[17]),
      Vec3(Float32(ws[18]), Float32(ws[19]), Float32(ws[20])),
      Vec3(Float32(ws[21]), Float32(ws[22]), Float32(ws[23])),
      Float32(ws[24]));
    forall k | 0 <= k < 25
      ensures h.Words()[k] == ws[k]
    {
      Uint32RoundTrip(ws[k]);
    }
    h
  }

  /** Reading the fields back from the words of a header gives the header. */
  lemma HeaderWordsRoundTrip(h: MeshHeader)
    ensures HeaderFromWords(h.Words()) == h
  {
    Int32RoundTrip(h.magic);
    Int32RoundTrip(h.version);
    Int32RoundTrip(h.x);
    Int32RoundTrip(h.y);
    Int32RoundTrip(h.layer);
    Int32RoundTrip(h.polyCount);
    Int32RoundTrip(h.vertCount);
    Int32RoundTrip(h.maxLinkCount);
    Int32RoundTrip(h.detailMeshCount);
    Int32RoundTrip(h.detailVertCount);
    Int32RoundTrip(h.detailTriCount);
    Int32RoundTrip(h.bvNodeCount);
    Int32RoundTrip(h.offMeshConCount);
    Int32RoundTrip(h.offMeshBase);
  }

  /** Unserialize: fails on a source shorter than Size() bytes; otherwise
      reads word k at offset 4k into the k-th field. The result encodes to
      exactly the 100 bytes it was read from. */
  function Unserialize(src: seq<uint8>): (r: Result<MeshHeader>)
    ensures r.Failure? <==> |src| < 100
    ensures r.Success? ==> r.value.Encode() == src[..100]
  {
    if |src| < 100 then
      Failure("undersized buffer for MeshHeader")
    else
      var ws := DecodeWords(src, 25);
      EncodeDecodeWords(src, 25);
      Success(HeaderFromWords(ws))
  }

  /** Round trip: unserializing what Serialize wrote, whatever bytes follow
      it, gives the header back. */
  lemma UnserializeSerialize(h: MeshHeader, rest: seq<uint8>)
    ensures Unserialize(h.Encode() + rest) == Success(h)
  {
    DecodeEncodeWords(h.Words(), rest);
    HeaderWordsRoundTrip(h);
  }

  /** The header layout: each of the 25 fields at offset 4k, k its position
      in the declaration, and decoded from there by Unserialize. */
  lemma HeaderLayout(h: MeshHeader, k: nat)
    requires k < 25
    ensures h.Encode()[4 * k..4 * k + 4] == PutUint32(h.Words()[k])
    ensures Uint32(h.Encode()[4 * k..]) == h.Words()[k]
  {
    EncodeWordAt(h.Words(), k);
    Uint32OfPut(h.Words()[k]);
  }

  /** A navigation-mesh tile: the header and the arrays it sizes. Only the
      record is modelled; the element types of the arrays are left
      abstract, and Next refers to another tile by its index. */
  datatype MeshTile<Poly, Link, PolyDetail, BvNode, OffMeshConnection> = MeshTile(
    salt: uint32,                          // counts modifications of the tile
    linksFreeList: uint32,                 // index of the next free link
    header: Option<MeshHeader>,
    polys: seq<Poly>,                      // polyCount of them
    verts: seq<Float32>,                   // 3 * vertCount coordinates
    links: seq<Link>,                      // maxLinkCount of them
    detailMeshes: seq<PolyDetail>,         // detailMeshCount of them
    detailVerts: seq<Float32>,             // 3 * detailVertCount coordinates
    detailTris: seq<uint8>,                // vertex indices of detailTriCount triangles
    bvTree: seq<BvNode>,                   // bvNodeCount of them, empty without a tree
    offMeshCons: seq<OffMeshConnection>,   // offMeshConCount of them
    data: seq<uint8>,
    dataSize: int32,
    flags: int32,
    next: Option<nat>)
}
