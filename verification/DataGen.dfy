/**
 The data both tools write: buffers filled in place, sector by sector, from fixed templates,
 with a header in each sector that limits how much of it a deduplicating device can share.
 */
module DataGen {
  import opened Words
  import opened NumberTheory

  type Byte = b: int | 0 <= b < 256

  const PAGE: nat := 4096
  const NDATAPAGES: nat := 1000
  const PAGESECTORS: nat := 8
  const SLICES: nat := 8000
  const HEADER: nat := 8
  const TYPESHIFT: nat := 0x100_0000_0000_0000

  const ZEROS := 0x01
  const ONES := 0x02
  const PATTERN1 := 0x03
  const UNCOMPRESSIBLE := 0x10
  const COMPRESSIBLE := 0x11
  const HCOMPRESSIBLE := 0x12
  const PST := 0x13
  const VM := 0x14
  const H20COMPRESSIBLE := 0x15
  const H10COMPRESSIBLE := 0x16
  const H40COMPRESSIBLE := 0x17

  /** A template holds NDATAPAGES pages; what is in them does not matter here. */
  type Template = t: seq<Byte> | |t| == SLICES * SECTOR witness seq(SLICES * SECTOR, _ => 0)

  datatype Templates = Templates(
    unc: Template, pst: Template, vm: Template, c: Template,
    hc40: Template, hc20: Template, hc10: Template, hc: Template)

  function TemplateOf(ts: Templates, dtype: nat): Template {
    if dtype == UNCOMPRESSIBLE then ts.unc
    else if dtype == PST then ts.pst
    else if dtype == VM then ts.vm
    else if dtype == COMPRESSIBLE then ts.c
    else if dtype == H40COMPRESSIBLE then ts.hc40
    else if dtype == H20COMPRESSIBLE then ts.hc20
    else if dtype == H10COMPRESSIBLE then ts.hc10
    else ts.hc
  }

  // ---------------------------------------------------------------- headers

  /** The bytes a store of the `n`-byte word `x` leaves in memory, lowest first. */
  function Stored(x: nat, n: nat): (s: seq<Byte>)
    ensures |s| == n
  {
    if n == 0 then [] else [x % 256] + Stored(x / 256, n - 1)
  }

  function Loaded(s: seq<Byte>): nat {
    if s == [] then 0 else s[0] + 256 * Loaded(s[1..])
  }

  function Power256(n: nat): nat {
    if n == 0 then 1 else 256 * Power256(n - 1)
  }

  lemma {:induction false} LoadStored(x: nat, n: nat)
    requires x < Power256(n)
    ensures Loaded(Stored(x, n)) == x
  {
    if n == 0 {
    } else {
      LoadStored(x / 256, n - 1);
      assert Stored(x, n)[1..] == Stored(x / 256, n - 1);
    }
  }

  function HeaderOf(dtype: nat, id: nat): nat {
    U64(dtype * TYPESHIFT + id)
  }

  function HeaderBytes(dtype: nat, id: nat): (s: seq<Byte>)
    ensures |s| == HEADER
  {
    Stored(HeaderOf(dtype, id), HEADER)
  }

  /** A reader gets the data type and the number back from the first eight bytes of a sector. */
  lemma HeaderDecodes(dtype: nat, id: nat)
    requires dtype < 256 && id < TYPESHIFT
    ensures Loaded(HeaderBytes(dtype, id)) / TYPESHIFT == dtype
    ensures Loaded(HeaderBytes(dtype, id)) % TYPESHIFT == id
  {
    var h := dtype * TYPESHIFT + id;
    assert U64(h) == h;
    PowerIsWord();
    LoadStored(h, HEADER);
    DivModUnique(h, TYPESHIFT, dtype, id);
  }

  /** The lowest byte stands first, so the data type is the eighth byte of a sector. */
  lemma {:induction false} StoredAt(x: nat, n: nat, i: nat)
    requires i < n
    ensures Power256(i) > 0 && Stored(x, n)[i] == x / Power256(i) % 256
    decreases n
  {
    if i == 0 {
    } else {
      StoredAt(x / 256, n - 1, i - 1);
      assert Stored(x, n)[i] == Stored(x / 256, n - 1)[i - 1];
      DivideTwice(x, 256, Power256(i - 1));
    }
  }

  lemma Digits(q: nat, r: nat, s: nat, a: nat, b: nat)
    requires r < b && s < a
    ensures (q * b + r) * a + s == q * (a * b) + (r * a + s) && r * a + s < a * b
  {
    MulMono(r + 1, b, a);
    assert (r + 1) * a == r * a + a && b * a == a * b;
    assert (q * b + r) * a == (q * b) * a + r * a;
    MulAssoc(q, b, a);
  }

  lemma QuotientOf(x: nat, a: nat, b: nat, q: nat, r: nat, s: nat)
    requires r < b && s < a && x == (q * b + r) * a + s
    ensures a * b > 0 && x / (a * b) == q
  {
    Digits(q, r, s, a, b);
    var ab, t := a * b, r * a + s;
    assert x == q * ab + t && t < ab;
    DivModUnique(x, ab, q, t);
  }

  lemma DivideTwice(x: nat, a: nat, b: nat)
    requires a > 0 && b > 0
    ensures a * b > 0 && x / a / b == x / (a * b)
  {
    QuotientOf(x, a, b, x / a / b, x / a % b, x % a) by {
      assert x / a == (x / a / b) * b + x / a % b;
      assert x == (x / a) * a + x % a;
    }
  }

  lemma TypeIsEighthByte(dtype: nat, id: nat)
    requires dtype < 256 && id < TYPESHIFT
    ensures HeaderBytes(dtype, id)[7] == dtype && HeaderBytes(dtype, id)[0] == id % 256
  {
    hide Stored, Power256, TYPESHIFT;
    var h := HeaderOf(dtype, id);
    StoredAt(h, HEADER, 7);
    StoredAt(h, HEADER, 0);
    Powers();
    HeaderParts(dtype, id);
  }

  lemma Powers()
    ensures Power256(0) == 1 && Power256(7) == TYPESHIFT
  {
    assert Power256(2) == 0x1_0000 && Power256(4) == 0x1_0000_0000;
  }

  lemma HeaderParts(dtype: nat, id: nat)
    requires dtype < 256 && id < TYPESHIFT
    ensures HeaderOf(dtype, id) / TYPESHIFT % 256 == dtype && HeaderOf(dtype, id) % 256 == id % 256
  {
    var h := dtype * TYPESHIFT + id;
    assert U64(h) == h;
    DivModUnique(h, TYPESHIFT, dtype, id);
  }

  lemma PowerIsWord()
    ensures Power256(HEADER) == TWO64
  {
    assert Power256(2) == 0x1_0000;
    assert Power256(4) == 0x1_0000_0000;
    assert Power256(6) == 0x1_0000_0000_0000;
  }

  // ---------------------------------------------------------------- sectors

  /** Sector `slice` of a template, under a header. */
  function Image(t: Template, slice: nat, dtype: nat, id: nat): (s: seq<Byte>)
    requires slice < SLICES
    ensures |s| == SECTOR
  {
    HeaderBytes(dtype, id) + Tail(t, slice)
  }

  /** What of a template's sector the header leaves visible. */
  function Tail(t: Template, slice: nat): (s: seq<Byte>)
    requires slice < SLICES
    ensures |s| == SECTOR - HEADER
  {
    t[slice * SECTOR + HEADER..(slice + 1) * SECTOR]
  }

  /** Sectors are equal exactly when number, type and the visible part of the template are. */
  lemma ImageEqualIff(t: Template, u: Template, i: nat, j: nat, d: nat, e: nat, x: nat, y: nat)
    requires i < SLICES && j < SLICES && d < 256 && e < 256 && x < TYPESHIFT && y < TYPESHIFT
    ensures Image(t, i, d, x) == Image(u, j, e, y) <==> d == e && x == y && Tail(t, i) == Tail(u, j)
  {
    var a, b := Image(t, i, d, x), Image(u, j, e, y);
    assert a[..HEADER] == HeaderBytes(d, x) && b[..HEADER] == HeaderBytes(e, y);
    assert a[HEADER..] == Tail(t, i) && b[HEADER..] == Tail(u, j);
    HeaderDecodes(d, x);
    HeaderDecodes(e, y);
    hide HeaderBytes, Tail, Loaded;
  }

  // ---------------------------------------------------------------- filling a buffer in place

  function Filled(v: Byte): (s: seq<Byte>)
    ensures |s| == SECTOR
  {
    seq(SECTOR, _ => v)
  }

  /**
   Sector `k` of a buffer that iob_iodata fills. `draws` holds its random numbers: those of a
   page, or of a sector for one-byte patterns.
   */
  function IoSector(ts: Templates, dtype: nat, dedupblks: nat, draws: nat -> (nat, nat), k: nat): (s: seq<Byte>)
    requires dedupblks > 0
    ensures |s| == SECTOR
  {
    if dtype == PATTERN1 then Filled(draws(k).0 % 256)
    else if dtype == ONES then Filled(0xff)
    else if dtype == ZEROS then Filled(0)
    else
      var d := draws(k / PAGESECTORS);
      Image(TemplateOf(ts, dtype), d.0 % NDATAPAGES * PAGESECTORS + k % PAGESECTORS, dtype, d.1 % dedupblks)
  }

  /** memset of the bytes from `off` on. */
  method SetBytes(bp: array<Byte>, off: nat, v: Byte, n: nat)
    requires off + n <= bp.Length
    modifies bp
    ensures forall i | off <= i < off + n :: bp[i] == v
    ensures forall i | 0 <= i < bp.Length && !(off <= i < off + n) :: bp[i] == old(bp[i])
  {
    forall i | off <= i < off + n {
      bp[i] := v;
    }
  }

  /** memcpy of template bytes. */
  method CopyBytes(bp: array<Byte>, off: nat, t: Template, doff: nat, n: nat)
    requires off + n <= bp.Length && doff + n <= |t|
    modifies bp
    ensures forall i | off <= i < off + n :: bp[i] == t[doff + (i - off)]
    ensures forall i | 0 <= i < bp.Length && !(off <= i < off + n) :: bp[i] == old(bp[i])
  {
    forall i | off <= i < off + n {
      bp[i] := t[doff + (i - off)];
    }
  }

  /** The store of a header word. */
  method StoreWord(bp: array<Byte>, off: nat, hdr: nat)
    requires off + HEADER <= bp.Length
    modifies bp
    ensures forall i | off <= i < off + HEADER :: bp[i] == Stored(hdr, HEADER)[i - off]
    ensures forall i | 0 <= i < bp.Length && !(off <= i < off + HEADER) :: bp[i] == old(bp[i])
  {
    forall i | off <= i < off + HEADER {
      bp[i] := Stored(hdr, HEADER)[i - off];
    }
  }

  /** Byte `j` of a run of template sectors that each carry the header `hdr`. */
  function PageByte(t: Template, doff: nat, hdr: nat, j: nat): Byte
    requires doff + j < |t|
  {
    if j % SECTOR < HEADER then Stored(hdr, HEADER)[j % SECTOR] else t[doff + j]
  }

  /** One round of the page loop: template bytes first, then a header over each sector. */
  method FillPage(bp: array<Byte>, off: nat, t: Template, doff: nat, nbytes: nat, hdr: nat)
    requires off + nbytes <= bp.Length && doff + nbytes <= |t| && nbytes % SECTOR == 0
    modifies bp
    ensures forall i | off <= i < off + nbytes :: bp[i] == PageByte(t, doff, hdr, i - off)
    ensures forall i | 0 <= i < bp.Length && !(off <= i < off + nbytes) :: bp[i] == old(bp[i])
  {
    CopyBytes(bp, off, t, doff, nbytes);
    var soff := 0;
    while soff < nbytes
      invariant soff <= nbytes && soff % SECTOR == 0
      invariant forall i | off <= i < off + soff :: bp[i] == PageByte(t, doff, hdr, i - off)
      invariant forall i | off + soff <= i < off + nbytes :: bp[i] == t[doff + (i - off)]
      invariant forall i | 0 <= i < bp.Length && !(off <= i < off + nbytes) :: bp[i] == old(bp[i])
    {
      StoreWord(bp, off + soff, hdr);
      soff := soff + SECTOR;
    }
  }

  lemma PageByteIs(t: Template, page: nat, dtype: nat, id: nat, j: nat)
    requires page < NDATAPAGES && j < PAGE
    ensures PageByte(t, page * PAGE, HeaderOf(dtype, id), j)
         == Image(t, page * PAGESECTORS + j / SECTOR, dtype, id)[j % SECTOR]
  {
  }

  predicate IsTemplate(dtype: nat) {
    dtype != PATTERN1 && dtype != ONES && dtype != ZEROS
  }

  lemma PageFilled(ts: Templates, dtype: nat, dedupblks: nat, draws: nat -> (nat, nat), off: nat, j: nat)
    requires IsTemplate(dtype) && dedupblks > 0 && off % PAGE == 0 && j < PAGE
    ensures IoByte(ts, dtype, dedupblks, draws, off + j) ==
      PageByte(TemplateOf(ts, dtype), draws(off / PAGE).0 % NDATAPAGES * PAGE,
               HeaderOf(dtype, draws(off / PAGE).1 % dedupblks), j)
  {
    PageSector(off, j);
    var d := draws(off / PAGE);
    PageByteIs(TemplateOf(ts, dtype), d.0 % NDATAPAGES, dtype, d.1 % dedupblks, j);
    hide Image, PageByte, HeaderOf, TemplateOf;
  }

  /** Byte `i` of a buffer that iob_iodata fills. */
  function IoByte(ts: Templates, dtype: nat, dedupblks: nat, draws: nat -> (nat, nat), i: nat): Byte
    requires dedupblks > 0
  {
    IoSector(ts, dtype, dedupblks, draws, i / SECTOR)[i % SECTOR]
  }

  /** The page loop of iob_iodata. */
  method FillPages(bp: array<Byte>, size: nat, ts: Templates, dtype: nat, dedupblks: nat, draws: nat -> (nat, nat))
    requires size <= bp.Length && size % SECTOR == 0 && dedupblks > 0 && IsTemplate(dtype)
    modifies bp
    ensures forall i | 0 <= i < size :: bp[i] == IoByte(ts, dtype, dedupblks, draws, i)
    ensures forall i | size <= i < bp.Length :: bp[i] == old(bp[i])
  {
    hide IoByte, PageByte, HeaderOf, TemplateOf;
    var dbuf := TemplateOf(ts, dtype);
    var off := 0;
    while off < size
      invariant off % PAGE == 0
      invariant forall i | 0 <= i < off && i < size :: bp[i] == IoByte(ts, dtype, dedupblks, draws, i)
      invariant forall i | size <= i < bp.Length :: bp[i] == old(bp[i])
    {
      var doff := draws(off / PAGE).0 % NDATAPAGES * PAGE;
      var nbytes := PAGE;
      if nbytes > size - off {
        nbytes := size - off;
      }
      var hdr := HeaderOf(dtype, draws(off / PAGE).1 % dedupblks);
      FillPage(bp, off, dbuf, doff, nbytes, hdr);
      forall i | off <= i < off + nbytes ensures bp[i] == IoByte(ts, dtype, dedupblks, draws, i) {
        PageFilled(ts, dtype, dedupblks, draws, off, i - off);
      }
      off := off + PAGE;
    }
  }

  // ---------------------------------------------------------------- the same, byte by byte

  /** Which template the statement `holds` is about, type by type. */
  predicate ForType(ts: Templates, dtype: nat, holds: Template -> bool) {
    && (dtype == UNCOMPRESSIBLE ==> holds(ts.unc))
    && (dtype == PST ==> holds(ts.pst))
    && (dtype == VM ==> holds(ts.vm))
    && (dtype == COMPRESSIBLE ==> holds(ts.c))
    && (dtype == H40COMPRESSIBLE ==> holds(ts.hc40))
    && (dtype == H20COMPRESSIBLE ==> holds(ts.hc20))
    && (dtype == H10COMPRESSIBLE ==> holds(ts.hc10))
    && (dtype == HCOMPRESSIBLE ==> holds(ts.hc))
  }

  /** Below the headers every page of 4096 bytes is the page of the template that its first draw selects. */
  predicate PagesFrom(b: seq<Byte>, t: Template, draws: nat -> (nat, nat)) {
    forall i | 0 <= i < |b| && i % 512 >= 8 :: b[i] == t[draws(i / 4096).0 % 1000 * 4096 + i % 4096]
  }

  /** The first eight bytes of sector `k`. */
  function Head(b: seq<Byte>, k: nat): seq<Byte>
    requires k * 512 + 512 <= |b|
  {
    b[k * 512..k * 512 + 8]
  }

  /** Every sector begins with its type and the second draw of its page, reduced to `dedupblks`. */
  ghost predicate PagesHeaded(b: seq<Byte>, dtype: nat, dedupblks: nat, draws: nat -> (nat, nat))
    requires dedupblks > 0
  {
    forall k: nat | k * 512 + 512 <= |b| ::
      Loaded(Head(b, k)) == U64(dtype * 0x100_0000_0000_0000 + draws(k / 8).1 % dedupblks)
  }

  /** The types without a template: drawn bytes, one for each sector, or one byte throughout. */
  predicate ConstantBytes(b: seq<Byte>, dtype: nat, draws: nat -> (nat, nat)) {
    && (dtype == PATTERN1 ==> forall i | 0 <= i < |b| :: b[i] == draws(i / 512).0 % 256)
    && (dtype == ONES ==> forall i | 0 <= i < |b| :: b[i] == 255)
    && (dtype == ZEROS ==> forall i | 0 <= i < |b| :: b[i] == 0)
  }

  lemma PageBody(ts: Templates, dtype: nat, dedupblks: nat, draws: nat -> (nat, nat), i: nat)
    requires IsTemplate(dtype) && dedupblks > 0 && i % 512 >= 8
    ensures IoByte(ts, dtype, dedupblks, draws, i)
         == TemplateOf(ts, dtype)[draws(i / 4096).0 % 1000 * 4096 + i % 4096]
  {
    hide IoByte, TemplateOf, HeaderOf, PageByte, Stored;
    PageOf(i);
    PageFilled(ts, dtype, dedupblks, draws, i / 4096 * 4096, i % 4096);
    BelowHeader(TemplateOf(ts, dtype), draws(i / 4096).0 % 1000, HeaderOf(dtype, draws(i / 4096).1 % dedupblks), i % 4096);
  }

  lemma PageOf(i: nat)
    ensures i / 4096 * 4096 + i % 4096 == i && i % 4096 % 512 == i % 512
    ensures i / 4096 * 4096 % PAGE == 0 && i / 4096 * 4096 / PAGE == i / 4096
  {
  }

  lemma BelowHeader(t: Template, page: nat, hdr: nat, j: nat)
    requires page < 1000 && j < 4096 && j % 512 >= 8
    ensures PageByte(t, page * PAGE, hdr, j) == t[page * 4096 + j]
  {
  }

  lemma PageHead(ts: Templates, dtype: nat, dedupblks: nat, draws: nat -> (nat, nat), k: nat)
    requires IsTemplate(dtype) && dedupblks > 0
    ensures Loaded(IoSector(ts, dtype, dedupblks, draws, k)[..8])
         == U64(dtype * 0x100_0000_0000_0000 + draws(k / 8).1 % dedupblks)
  {
    var id := draws(k / 8).1 % dedupblks;
    assert IoSector(ts, dtype, dedupblks, draws, k)[..8] == HeaderBytes(dtype, id) by {
      hide HeaderBytes, TemplateOf, Tail;
    }
    HeaderLoaded(dtype, id);
    hide HeaderBytes, Loaded, IoSector;
  }

  /** What iob_iodata leaves, in terms of the template of each type. */
  lemma IoBytesAre(b: seq<Byte>, ts: Templates, dtype: nat, dedupblks: nat, draws: nat -> (nat, nat))
    requires IsTemplate(dtype) && dedupblks > 0 && forall i | 0 <= i < |b| :: b[i] == IoByte(ts, dtype, dedupblks, draws, i)
    ensures ForType(ts, dtype, (t: Template) => PagesFrom(b, t, draws)) && PagesHeaded(b, dtype, dedupblks, draws)
  {
    forall i | 0 <= i < |b| && i % 512 >= 8
      ensures b[i] == TemplateOf(ts, dtype)[draws(i / 4096).0 % 1000 * 4096 + i % 4096]
    {
      PageBody(ts, dtype, dedupblks, draws, i);
    }
    forall k: nat | k * 512 + 512 <= |b|
      ensures Loaded(Head(b, k)) == U64(dtype * 0x100_0000_0000_0000 + draws(k / 8).1 % dedupblks)
    {
      IoHead(b, ts, dtype, dedupblks, draws, k);
    }
    hide IoByte, Loaded, Head, U64;
    assert PagesFrom(b, TemplateOf(ts, dtype), draws);
    hide PagesFrom;
  }

  lemma IoHead(b: seq<Byte>, ts: Templates, dtype: nat, dedupblks: nat, draws: nat -> (nat, nat), k: nat)
    requires IsTemplate(dtype) && dedupblks > 0 && k * 512 + 512 <= |b|
    requires forall i | 0 <= i < |b| :: b[i] == IoByte(ts, dtype, dedupblks, draws, i)
    ensures Loaded(Head(b, k)) == U64(dtype * 0x100_0000_0000_0000 + draws(k / 8).1 % dedupblks)
  {
    hide IoSector, Loaded, U64;
    PageHead(ts, dtype, dedupblks, draws, k);
    assert Head(b, k) == IoSector(ts, dtype, dedupblks, draws, k)[..8];
  }

  /** The branches for types without a template, with which both functions begin. */
  method FillConstant(bp: array<Byte>, size: nat, dtype: nat, draws: nat -> (nat, nat))
    requires size <= bp.Length && size % SECTOR == 0 && !IsTemplate(dtype)
    modifies bp
    ensures ConstantBytes(bp[..size], dtype, draws)
    ensures forall i | size <= i < bp.Length :: bp[i] == old(bp[i])
  {
    if dtype == PATTERN1 {
      var off := 0;
      while off < size
        invariant off <= size && off % SECTOR == 0
        invariant forall i | 0 <= i < off :: bp[i] == draws(i / SECTOR).0 % 256
        invariant forall i | size <= i < bp.Length :: bp[i] == old(bp[i])
      {
        SetBytes(bp, off, draws(off / SECTOR).0 % 256, SECTOR);
        off := off + SECTOR;
      }
    } else if dtype == ONES {
      SetBytes(bp, 0, 0xff, size);
    } else {
      SetBytes(bp, 0, 0, size);
    }
  }

  lemma ConstantIsIo(b: seq<Byte>, ts: Templates, dtype: nat, dedupblks: nat, draws: nat -> (nat, nat))
    requires !IsTemplate(dtype) && dedupblks > 0 && ConstantBytes(b, dtype, draws)
    ensures forall i | 0 <= i < |b| :: b[i] == IoByte(ts, dtype, dedupblks, draws, i)
  {
  }

  /** iob_iodata: the first `size` bytes of the buffer become whole sectors, and nothing else changes. */
  method Iodata(bp: array<Byte>, size: nat, ts: Templates, dtype: nat, dedupblks: nat, draws: nat -> (nat, nat))
    requires size <= bp.Length && size % SECTOR == 0 && dedupblks > 0
    modifies bp
    ensures forall i | 0 <= i < size :: bp[i] == IoByte(ts, dtype, dedupblks, draws, i)
    ensures forall i | size <= i < bp.Length :: bp[i] == old(bp[i])
    ensures IsTemplate(dtype) ==>
      var b := bp[..size];
      ForType(ts, dtype, (t: Template) => PagesFrom(b, t, draws)) && PagesHeaded(b, dtype, dedupblks, draws)
    ensures !IsTemplate(dtype) ==> ConstantBytes(bp[..size], dtype, draws)
  {
    if !IsTemplate(dtype) {
      FillConstant(bp, size, dtype, draws);
      ConstantIsIo(bp[..size], ts, dtype, dedupblks, draws);
    } else {
      FillPages(bp, size, ts, dtype, dedupblks, draws);
      IoBytesAre(bp[..size], ts, dtype, dedupblks, draws);
    }
    hide IoByte, ForType, PagesFrom, PagesHeaded, ConstantBytes;
  }

  lemma PageSector(off: nat, j: nat)
    requires off % PAGE == 0 && j < PAGE
    ensures (off + j) % SECTOR == j % SECTOR
    ensures (off + j) / SECTOR / PAGESECTORS == off / PAGE
    ensures (off + j) / SECTOR % PAGESECTORS == j / SECTOR
  {
  }

  // ---------------------------------------------------------------- how many different sectors there are

  /** The values of `f` below `n`. */
  ghost function Values<T>(f: nat -> T, n: nat): set<T> {
    set i: nat | i < n :: f(i)
  }

  ghost predicate Injective<T>(f: nat -> T, n: nat) {
    forall i, j | 0 <= i < j < n :: f(i) != f(j)
  }

  lemma ValuesNext<T>(f: nat -> T, n: nat)
    ensures Values(f, n + 1) == Values(f, n) + {f(n)}
    ensures Injective(f, n + 1) <==> Injective(f, n) && f(n) !in Values(f, n)
  {
    if f(n) in Values(f, n) {
      var i: nat :| i < n && f(i) == f(n);
    } else {
      forall i: nat | i < n ensures f(i) != f(n) {
        assert f(i) in Values(f, n);
      }
    }
  }

  lemma {:induction false} ValuesCount<T>(f: nat -> T, n: nat)
    ensures |Values(f, n)| <= n
    ensures |Values(f, n)| == n <==> Injective(f, n)
    decreases n
  {
    if n == 0 {
      assert Values(f, 0) == {};
    } else {
      ValuesCount(f, n - 1);
      ValuesNext(f, n - 1);
      hide Values, Injective;
    }
  }

  lemma {:induction false} SubsetCount<T>(a: set<T>, b: set<T>)
    requires a <= b
    ensures |a| <= |b|
  {
    if a != {} {
      var x :| x in a;
      SubsetCount(a - {x}, b - {x});
    }
  }

  /** The sectors a data type can yield, numbered. */
  function ImageNo(t: Template, dtype: nat, i: nat): seq<Byte> {
    Image(t, i % SLICES, dtype, i / SLICES)
  }

  ghost function AllImages(t: Template, dtype: nat, dedupblks: nat): set<seq<Byte>> {
    Values(i => ImageNo(t, dtype, i), dedupblks * SLICES)
  }

  lemma NumberOf(id: nat, slice: nat, dedupblks: nat)
    requires slice < SLICES && id < dedupblks
    ensures id * SLICES + slice < dedupblks * SLICES
    ensures (id * SLICES + slice) / SLICES == id && (id * SLICES + slice) % SLICES == slice
  {
  }

  /** A sector some call of iob_iodata can produce. */
  ghost predicate Produced(ts: Templates, dtype: nat, dedupblks: nat, s: seq<Byte>)
    requires dedupblks > 0
  {
    exists draws: nat -> (nat, nat), k: nat :: s == IoSector(ts, dtype, dedupblks, draws, k)
  }

  lemma ProducedNumber(ts: Templates, dtype: nat, dedupblks: nat, draws: nat -> (nat, nat), k: nat) returns (i: nat)
    requires IsTemplate(dtype) && dedupblks > 0
    ensures i < dedupblks * SLICES
    ensures IoSector(ts, dtype, dedupblks, draws, k) == ImageNo(TemplateOf(ts, dtype), dtype, i)
  {
    hide Image, TemplateOf;
    var d := draws(k / PAGESECTORS);
    var id, slice := d.1 % dedupblks, d.0 % NDATAPAGES * PAGESECTORS + k % PAGESECTORS;
    NumberOf(id, slice, dedupblks);
    i := id * SLICES + slice;
  }

  lemma PageOfSlice(slice: nat)
    requires slice < SLICES
    ensures slice / PAGESECTORS % NDATAPAGES * PAGESECTORS + slice % PAGESECTORS % PAGESECTORS == slice
    ensures slice % PAGESECTORS / PAGESECTORS == 0
  {
  }

  lemma NumberProduced(ts: Templates, dtype: nat, dedupblks: nat, i: nat)
    requires IsTemplate(dtype) && dedupblks > 0 && i < dedupblks * SLICES
    ensures Produced(ts, dtype, dedupblks, ImageNo(TemplateOf(ts, dtype), dtype, i))
  {
    hide Image, TemplateOf;
    var slice, id := i % SLICES, i / SLICES;
    QuotientBelow(i, dedupblks);
    PageOfSlice(slice);
    var draws := (p: nat) => (slice / PAGESECTORS, id);
    assert IoSector(ts, dtype, dedupblks, draws, slice % PAGESECTORS) == ImageNo(TemplateOf(ts, dtype), dtype, i);
  }

  /** The sectors that calls can produce are exactly the numbered ones. */
  lemma ProducedIff(ts: Templates, dtype: nat, dedupblks: nat, s: seq<Byte>)
    requires IsTemplate(dtype) && dedupblks > 0
    ensures Produced(ts, dtype, dedupblks, s) <==> s in AllImages(TemplateOf(ts, dtype), dtype, dedupblks)
  {
    var t := TemplateOf(ts, dtype);
    hide ImageNo, TemplateOf, IoSector;
    if Produced(ts, dtype, dedupblks, s) {
      var draws: nat -> (nat, nat), k: nat :| s == IoSector(ts, dtype, dedupblks, draws, k);
      var i := ProducedNumber(ts, dtype, dedupblks, draws, k);
      assert s == (i => ImageNo(t, dtype, i))(i);
    } else if s in AllImages(t, dtype, dedupblks) {
      var i: nat :| i < dedupblks * SLICES && s == (i => ImageNo(t, dtype, i))(i);
      NumberProduced(ts, dtype, dedupblks, i);
    }
  }

  lemma QuotientBelow(i: nat, d: nat)
    requires i < d * SLICES
    ensures i / SLICES < d && (i / SLICES) % d == i / SLICES
  {
  }

  /**
   Over any run, whatever is drawn, the different sectors of a data type are at most as many
   as both tools report for it.
   */
  lemma DedupBound(ts: Templates, dtype: nat, dedupblks: nat, images: set<seq<Byte>>)
    requires IsTemplate(dtype) && dedupblks > 0
    requires forall s | s in images :: Produced(ts, dtype, dedupblks, s)
    ensures |images| <= dedupblks * NDATAPAGES * (PAGE / SECTOR)
  {
    var t := TemplateOf(ts, dtype);
    forall s | s in images ensures s in AllImages(t, dtype, dedupblks) {
      ProducedIff(ts, dtype, dedupblks, s);
    }
    SubsetCount(images, AllImages(t, dtype, dedupblks));
    ValuesCount(i => ImageNo(t, dtype, i), dedupblks * SLICES);
    hide Produced, TemplateOf;
  }

  type Sectors = seq<seq<Byte>>

  /** Page number `p` of a buffer that iob_iodata fills, as its sectors. */
  function IoPage(ts: Templates, dtype: nat, dedupblks: nat, draws: nat -> (nat, nat), p: nat): Sectors
    requires dedupblks > 0
  {
    seq(PAGESECTORS, k requires 0 <= k => IoPageSector(ts, dtype, dedupblks, draws, p, k))
  }

  function IoPageSector(ts: Templates, dtype: nat, dedupblks: nat, draws: nat -> (nat, nat), p: nat, k: nat): seq<Byte>
    requires dedupblks > 0
  {
    IoSector(ts, dtype, dedupblks, draws, p * PAGESECTORS + k)
  }

  /** The pages a data type can yield, numbered. */
  function PageNo(t: Template, dtype: nat, i: nat): Sectors {
    seq(PAGESECTORS, k requires 0 <= k < PAGESECTORS => PageNoSector(t, dtype, i, k))
  }

  function PageNoSector(t: Template, dtype: nat, i: nat, k: nat): seq<Byte>
    requires k < PAGESECTORS
  {
    Image(t, i % NDATAPAGES * PAGESECTORS + k, dtype, i / NDATAPAGES)
  }

  lemma PageNumber(ts: Templates, dtype: nat, dedupblks: nat, draws: nat -> (nat, nat), p: nat) returns (i: nat)
    requires IsTemplate(dtype) && dedupblks > 0
    ensures i < dedupblks * NDATAPAGES
    ensures IoPage(ts, dtype, dedupblks, draws, p) == PageNo(TemplateOf(ts, dtype), dtype, i)
  {
    var page, id := draws(p).0 % NDATAPAGES, draws(p).1 % dedupblks;
    i := id * NDATAPAGES + page;
    assert i / NDATAPAGES == id && i % NDATAPAGES == page;
    forall k: nat | k < PAGESECTORS
      ensures IoPageSector(ts, dtype, dedupblks, draws, p, k) == PageNoSector(TemplateOf(ts, dtype), dtype, i, k)
    {
      assert (p * PAGESECTORS + k) / PAGESECTORS == p && (p * PAGESECTORS + k) % PAGESECTORS == k;
      hide Image, TemplateOf;
    }
    hide IoPageSector, PageNoSector, TemplateOf;
  }

  ghost predicate PageProduced(ts: Templates, dtype: nat, dedupblks: nat, pg: Sectors)
    requires dedupblks > 0
  {
    exists draws: nat -> (nat, nat), p: nat :: pg == IoPage(ts, dtype, dedupblks, draws, p)
  }

  /**
   Different whole pages are at most one eighth of that. The summary calls its figure
   unique pages, but it is the bound on sectors; this is the bound on pages.
   */
  lemma PageBound(ts: Templates, dtype: nat, dedupblks: nat, pages: set<Sectors>)
    requires IsTemplate(dtype) && dedupblks > 0
    requires forall pg | pg in pages :: PageProduced(ts, dtype, dedupblks, pg)
    ensures |pages| <= dedupblks * NDATAPAGES
  {
    var t := TemplateOf(ts, dtype);
    var f := (i: nat) => PageNo(t, dtype, i);
    hide PageNo, TemplateOf, IoPage;
    forall pg | pg in pages ensures pg in Values(f, dedupblks * NDATAPAGES) {
      var draws: nat -> (nat, nat), p: nat :| pg == IoPage(ts, dtype, dedupblks, draws, p);
      var i := PageNumber(ts, dtype, dedupblks, draws, p);
      assert pg == f(i);
    }
    ValuesCount(f, dedupblks * NDATAPAGES);
    SubsetCount(pages, Values(f, dedupblks * NDATAPAGES));
    hide Values;
  }

  ghost predicate DistinctTails(t: Template) {
    forall i, j | 0 <= i < j < SLICES :: Tail(t, i) != Tail(t, j)
  }

  /** The reported figure is reached exactly when no two sectors of the template agree below their headers. */
  lemma DedupExactIff(t: Template, dtype: nat, dedupblks: nat)
    requires dtype < 256 && 0 < dedupblks <= TYPESHIFT
    ensures |AllImages(t, dtype, dedupblks)| == dedupblks * NDATAPAGES * (PAGE / SECTOR) <==> DistinctTails(t)
  {
    var f := (i: nat) => ImageNo(t, dtype, i);
    hide ImageNo;
    ValuesCount(f, dedupblks * SLICES);
    if DistinctTails(t) {
      forall i, j | 0 <= i < j < dedupblks * SLICES ensures f(i) != f(j) {
        NumbersDiffer(t, dtype, dedupblks, i, j);
      }
    } else {
      var i, j := TailsAgree(t, dtype);
      assert f(i) == f(j);
    }
    hide DistinctTails;
  }

  lemma TailsAgree(t: Template, dtype: nat) returns (i: nat, j: nat)
    requires dtype < 256 && !DistinctTails(t)
    ensures i < j < SLICES && ImageNo(t, dtype, i) == ImageNo(t, dtype, j)
  {
    hide Tail, Image;
    i, j :| 0 <= i < j < SLICES && Tail(t, i) == Tail(t, j);
    ImageEqualIff(t, t, i, j, dtype, dtype, 0, 0);
  }

  lemma NumbersDiffer(t: Template, dtype: nat, dedupblks: nat, i: nat, j: nat)
    requires dtype < 256 && 0 < dedupblks <= TYPESHIFT && i < j < dedupblks * SLICES && DistinctTails(t)
    ensures ImageNo(t, dtype, i) != ImageNo(t, dtype, j)
  {
    hide Tail, Image;
    QuotientBelow(i, dedupblks);
    QuotientBelow(j, dedupblks);
    ImageEqualIff(t, t, i % SLICES, j % SLICES, dtype, dtype, i / SLICES, j / SLICES);
  }

  // ---------------------------------------------------------------- data that depends on the block number only

  /** The sector that iob_dedupdata makes for block `bno`. */
  function DedupSector(ts: Templates, dtype: nat, bno: nat): (s: seq<Byte>)
    ensures |s| == SECTOR
  {
    Image(TemplateOf(ts, dtype), bno % SLICES, dtype, bno)
  }

  function DedupByte(ts: Templates, dtype: nat, srcbno: nat, i: nat): Byte {
    DedupSector(ts, dtype, BlockAt(srcbno, i))[i % SECTOR]
  }

  /** The block whose sector stands at offset `off` of a buffer that begins with block `srcbno`. */
  function BlockAt(srcbno: nat, off: nat): nat {
    U64(srcbno + off / SECTOR)
  }

  lemma BlockSteps(srcbno: nat, off: nat)
    requires srcbno < TWO64
    ensures BlockAt(srcbno, 0) == srcbno
    ensures U64(BlockAt(srcbno, off) + 1) == BlockAt(srcbno, off + SECTOR)
  {
    ModAdd(srcbno + off / SECTOR, 1, TWO64);
    assert (off + SECTOR) / SECTOR == off / SECTOR + 1;
  }

  function SliceStart(bno: nat): (doff: nat)
    ensures doff + SECTOR <= SLICES * SECTOR
  {
    bno % (NDATAPAGES * PAGE / SECTOR) * SECTOR
  }

  /** One round of the loop of iob_dedupdata. */
  method FillSector(bp: array<Byte>, off: nat, t: Template, doff: nat, hdr: nat)
    requires off + SECTOR <= bp.Length && doff + SECTOR <= |t|
    modifies bp
    ensures forall i | off <= i < off + SECTOR :: bp[i] == PageByte(t, doff, hdr, i - off)
    ensures forall i | 0 <= i < bp.Length && !(off <= i < off + SECTOR) :: bp[i] == old(bp[i])
  {
    CopyBytes(bp, off, t, doff, SECTOR);
    StoreWord(bp, off, hdr);
  }

  /** The template branch of iob_dedupdata. */
  method FillNumbered(bp: array<Byte>, size: nat, ts: Templates, dtype: nat, srcbno: nat)
    requires size <= bp.Length && size % SECTOR == 0 && IsTemplate(dtype) && srcbno < TWO64
    modifies bp
    ensures forall i | 0 <= i < size :: bp[i] == DedupByte(ts, dtype, srcbno, i)
    ensures forall i | size <= i < bp.Length :: bp[i] == old(bp[i])
  {
    hide DedupByte, PageByte, HeaderOf, U64, TemplateOf, BlockAt, SliceStart;
    BlockSteps(srcbno, 0);
    var dbuf := TemplateOf(ts, dtype);
    var off, bno := 0, srcbno;
    while off < size
      invariant off <= size && off % SECTOR == 0 && bno == BlockAt(srcbno, off)
      invariant forall i | 0 <= i < off :: bp[i] == DedupByte(ts, dtype, srcbno, i)
      invariant forall i | size <= i < bp.Length :: bp[i] == old(bp[i])
    {
      var doff := SliceStart(bno);
      var hdr := HeaderOf(dtype, bno);
      BlockSteps(srcbno, off);
      bno := U64(bno + 1);
      FillSector(bp, off, dbuf, doff, hdr);
      forall i | off <= i < off + SECTOR ensures bp[i] == DedupByte(ts, dtype, srcbno, i) {
        DedupByteIs(ts, dtype, srcbno, off, i - off);
      }
      off := off + SECTOR;
    }
  }

  /** Below the headers sector `k` is the slice of the template that its block number selects. */
  predicate SlicesFrom(b: seq<Byte>, t: Template, srcbno: nat) {
    forall i | 0 <= i < |b| && i % 512 >= 8 ::
      b[i] == t[(srcbno + i / 512) % 0x1_0000_0000_0000_0000 % 8000 * 512 + i % 512]
  }

  /** Every sector begins with its type and its block number. */
  ghost predicate SlicesHeaded(b: seq<Byte>, dtype: nat, srcbno: nat) {
    forall k: nat | k * 512 + 512 <= |b| ::
      Loaded(Head(b, k)) == U64(dtype * 0x100_0000_0000_0000 + U64(srcbno + k))
  }

  lemma SliceBody(ts: Templates, dtype: nat, srcbno: nat, i: nat)
    requires i % 512 >= 8
    ensures DedupByte(ts, dtype, srcbno, i)
         == TemplateOf(ts, dtype)[(srcbno + i / 512) % 0x1_0000_0000_0000_0000 % 8000 * 512 + i % 512]
  {
    hide TemplateOf, HeaderBytes;
    assert BlockAt(srcbno, i) == (srcbno + i / 512) % 0x1_0000_0000_0000_0000;
  }

  lemma SliceHead(b: seq<Byte>, ts: Templates, dtype: nat, srcbno: nat, k: nat)
    requires k * 512 + 512 <= |b| && forall i | 0 <= i < |b| :: b[i] == DedupByte(ts, dtype, srcbno, i)
    ensures Loaded(Head(b, k)) == U64(dtype * 0x100_0000_0000_0000 + U64(srcbno + k))
  {
    hide Loaded, U64, HeaderBytes, Tail, TemplateOf;
    var id := U64(srcbno + k);
    forall j: nat | j < 8 ensures Head(b, k)[j] == HeaderBytes(dtype, id)[j] {
      SectorByte(k * 512, j);
      assert b[k * 512 + j] == DedupByte(ts, dtype, srcbno, k * 512 + j);
    }
    assert Head(b, k) == HeaderBytes(dtype, id);
    HeaderLoaded(dtype, id);
  }

  lemma HeaderLoaded(dtype: nat, id: nat)
    ensures Loaded(HeaderBytes(dtype, id)) == U64(dtype * 0x100_0000_0000_0000 + id)
  {
    PowerIsWord();
    LoadStored(HeaderOf(dtype, id), HEADER);
    hide Stored, Loaded, Power256;
  }

  lemma DedupBytesAre(b: seq<Byte>, ts: Templates, dtype: nat, srcbno: nat)
    requires IsTemplate(dtype) && forall i | 0 <= i < |b| :: b[i] == DedupByte(ts, dtype, srcbno, i)
    ensures ForType(ts, dtype, (t: Template) => SlicesFrom(b, t, srcbno)) && SlicesHeaded(b, dtype, srcbno)
  {
    forall i | 0 <= i < |b| && i % 512 >= 8
      ensures b[i] == TemplateOf(ts, dtype)[(srcbno + i / 512) % 0x1_0000_0000_0000_0000 % 8000 * 512 + i % 512]
    {
      SliceBody(ts, dtype, srcbno, i);
    }
    forall k: nat | k * 512 + 512 <= |b|
      ensures Loaded(Head(b, k)) == U64(dtype * 0x100_0000_0000_0000 + U64(srcbno + k))
    {
      SliceHead(b, ts, dtype, srcbno, k);
    }
    hide DedupByte, Loaded, Head, U64;
    assert SlicesFrom(b, TemplateOf(ts, dtype), srcbno);
    hide SlicesFrom;
  }

  /** iob_dedupdata; its random numbers are used for one-byte patterns only. */
  method Dedupdata(bp: array<Byte>, size: nat, ts: Templates, dtype: nat, srcbno: nat, draws: nat -> (nat, nat))
    requires size <= bp.Length && size % SECTOR == 0 && srcbno < TWO64
    modifies bp
    ensures IsTemplate(dtype) ==> forall i | 0 <= i < size :: bp[i] == DedupByte(ts, dtype, srcbno, i)
    ensures forall i | size <= i < bp.Length :: bp[i] == old(bp[i])
    ensures IsTemplate(dtype) ==>
      var b := bp[..size];
      ForType(ts, dtype, (t: Template) => SlicesFrom(b, t, srcbno)) && SlicesHeaded(b, dtype, srcbno)
    ensures !IsTemplate(dtype) ==> ConstantBytes(bp[..size], dtype, draws)
  {
    if !IsTemplate(dtype) {
      FillConstant(bp, size, dtype, draws);
    } else {
      FillNumbered(bp, size, ts, dtype, srcbno);
      DedupBytesAre(bp[..size], ts, dtype, srcbno);
    }
    hide DedupByte, ForType, SlicesFrom, SlicesHeaded, ConstantBytes, TemplateOf, U64;
  }

  lemma SectorByte(off: nat, j: nat)
    requires off % SECTOR == 0 && j < SECTOR
    ensures (off + j) / SECTOR == off / SECTOR && (off + j) % SECTOR == j
  {
  }

  lemma DedupByteIs(ts: Templates, dtype: nat, srcbno: nat, off: nat, j: nat)
    requires off % SECTOR == 0 && j < SECTOR
    ensures DedupByte(ts, dtype, srcbno, off + j) ==
      PageByte(TemplateOf(ts, dtype), SliceStart(BlockAt(srcbno, off)), HeaderOf(dtype, BlockAt(srcbno, off)), j)
  {
    SectorByte(off, j);
    assert BlockAt(srcbno, off + j) == BlockAt(srcbno, off);
    DedupSectorByte(ts, dtype, BlockAt(srcbno, off), j);
    hide HeaderOf, TemplateOf, BlockAt, DedupSector, PageByte, SliceStart;
  }

  lemma DedupSectorByte(ts: Templates, dtype: nat, bno: nat, j: nat)
    requires j < SECTOR
    ensures DedupSector(ts, dtype, bno)[j] ==
      PageByte(TemplateOf(ts, dtype), SliceStart(bno), HeaderOf(dtype, bno), j)
  {
    hide HeaderOf, TemplateOf;
  }

  /** One call yields what any split into two calls yields, and so any split at all. */
  lemma DedupSplit(ts: Templates, dtype: nat, srcbno: nat, n: nat, i: nat)
    ensures DedupByte(ts, dtype, srcbno, n * SECTOR + i) == DedupByte(ts, dtype, U64(srcbno + n), i)
  {
    ModAdd(srcbno + n, i / SECTOR, TWO64);
    assert (n * SECTOR + i) / SECTOR == n + i / SECTOR && (n * SECTOR + i) % SECTOR == i % SECTOR;
    hide DedupSector;
  }

  /** Below 2^56, sectors of template types are equal exactly when type and block number are. */
  lemma DedupEqualIff(ts: Templates, d: nat, e: nat, x: nat, y: nat)
    requires d < 256 && e < 256 && x < TYPESHIFT && y < TYPESHIFT
    ensures DedupSector(ts, d, x) == DedupSector(ts, e, y) <==> d == e && x == y
  {
    ImageEqualIff(TemplateOf(ts, d), TemplateOf(ts, e), x % SLICES, y % SLICES, d, e, x, y);
    hide Image, TemplateOf, Tail;
  }

  lemma HeaderBytesEqualIff(d: nat, e: nat, x: nat, y: nat)
    ensures HeaderBytes(d, x) == HeaderBytes(e, y) <==> HeaderOf(d, x) == HeaderOf(e, y)
  {
    PowerIsWord();
    LoadStored(HeaderOf(d, x), HEADER);
    LoadStored(HeaderOf(e, y), HEADER);
    hide Stored, Loaded, Power256;
  }

  /**
   In general, for all types and block numbers: sectors are equal exactly when their header
   words are and their templates agree below.
   */
  lemma SectorsEqualIff(ts: Templates, d: nat, e: nat, x: nat, y: nat)
    ensures DedupSector(ts, d, x) == DedupSector(ts, e, y) <==>
      && HeaderOf(d, x) == HeaderOf(e, y)
      && Tail(TemplateOf(ts, d), x % SLICES) == Tail(TemplateOf(ts, e), y % SLICES)
  {
    var a, b := DedupSector(ts, d, x), DedupSector(ts, e, y);
    assert a[..HEADER] == HeaderBytes(d, x) && b[..HEADER] == HeaderBytes(e, y);
    assert a[HEADER..] == Tail(TemplateOf(ts, d), x % SLICES);
    assert b[HEADER..] == Tail(TemplateOf(ts, e), y % SLICES);
    HeaderBytesEqualIff(d, e, x, y);
    hide HeaderBytes, Tail, TemplateOf, HeaderOf;
  }

  /** From 2^56 on the number runs into the type: the header is that of the next type. */
  lemma SectorsCollideIff(ts: Templates, d: nat, x: nat)
    ensures DedupSector(ts, d, x + TYPESHIFT) == DedupSector(ts, d + 1, x) <==>
      Tail(TemplateOf(ts, d), (x + TYPESHIFT) % SLICES) == Tail(TemplateOf(ts, d + 1), x % SLICES)
  {
    assert d * TYPESHIFT + (x + TYPESHIFT) == (d + 1) * TYPESHIFT + x;
    SectorsEqualIff(ts, d, d + 1, x + TYPESHIFT, x);
    hide Tail, TemplateOf, DedupSector;
  }
}
