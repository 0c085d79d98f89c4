/**
  Archives as a writer makes them: the image of a list of entries, of which the mount is proved to
  read every entry back.
 */
module ArchiveWriter {
  import opened CTypes
  import opened FsTree
  import opened Archive

  function Zeros(n: nat): (z: seq<byte>)
    ensures |z| == n && forall i :: 0 <= i < n ==> z[i] == 0
  {
    seq(n, _ => 0)
  }

  /** Some flag the mount passes over stands for an entry of neither kind: a symbolic link. */
  function TypeFlag(e: Entry): byte {
    if e.FileEntry? then REGULAR else if e.DirEntry? then DIRECTORY else 50
  }

  /** The fields of a header the mount reads; the others are left zero. */
  ghost predicate IsHeader(h: seq<byte>, e: Entry) {
    && |h| == 512 && |e.raw| < 100
    && h[..|e.raw|] == e.raw && h[|e.raw|] == 0
    && h[100..107] == Octal(e.mode, 7) && h[107] == 0
    && h[124..135] == Octal(|e.data|, 11) && h[135] == 0
    && h[156] == (if e.FileEntry? then 48 else if e.DirEntry? then 53 else 50) && h[345] == 0
  }

  /** Byte i of the header. */
  function HeaderByte(e: Entry, i: nat): byte {
    if i < |e.raw| then e.raw[i]
    else if MODE_AT <= i < MODE_AT + 7 then Digit(e.mode, 7, i - MODE_AT)
    else if SIZE_AT <= i < SIZE_AT + 11 then Digit(|e.data|, 11, i - SIZE_AT)
    else if i == TYPE_AT then TypeFlag(e)
    else 0
  }

  /** Character i of v in octal, n digits. */
  function Digit(v: nat, n: nat, i: nat): byte
    requires i < n
  {
    OctalSize(v, n);
    Octal(v, n)[i]
  }

  function Header(e: Entry): (h: seq<byte>)
    requires |e.raw| < MODE_AT
    ensures |h| == BLOCK && forall i :: 0 <= i < BLOCK ==> h[i] == HeaderByte(e, i)
  {
    seq(BLOCK, i requires 0 <= i < BLOCK => HeaderByte(e, i))
  }

  lemma HeaderIs(e: Entry)
    requires |e.raw| < MODE_AT
    ensures IsHeader(Header(e), e)
  {
    hide Octal, Header, Digit;
    var h := Header(e);
    assert h[..|e.raw|] == e.raw;
    HeaderDigits(e, h, MODE_AT, e.mode, 7);
    HeaderDigits(e, h, SIZE_AT, |e.data|, 11);
  }

  lemma HeaderDigits(e: Entry, h: seq<byte>, at: nat, v: nat, n: nat)
    requires at + n <= |h| && forall i :: at <= i < at + n ==> h[i] == Digit(v, n, i - at)
    ensures h[at..at + n] == Octal(v, n)
  {
    hide Octal;
    OctalSize(v, n);
    forall i | 0 <= i < n ensures h[at..at + n][i] == Octal(v, n)[i] { assert h[at + i] == Digit(v, n, i); }
  }

  /** Header, data, and zeros to a whole number of blocks. */
  function Member(e: Entry): (m: seq<byte>)
    requires |e.raw| < MODE_AT
    ensures |m| == BLOCK + Padded(|e.data|)
  {
    Header(e) + e.data + Zeros(Padded(|e.data|) - |e.data|)
  }

  ghost predicate Writable(es: seq<Entry>) {
    HeaderOff(es, |es|) + BLOCK < TWO_32 && forall k :: 0 <= k < |es| ==> es[k].WellFormed()
  }

  /** The first n members. */
  function Body(es: seq<Entry>, n: nat): (b: seq<byte>)
    requires n <= |es| && forall k :: 0 <= k < |es| ==> |es[k].raw| < MODE_AT
    ensures |b| == HeaderOff(es, n)
  {
    if n == 0 then [] else Body(es, n - 1) + Member(es[n - 1])
  }

  /** The members and two blocks of zeros. */
  function Image(es: seq<Entry>): seq<byte>
    requires forall k :: 0 <= k < |es| ==> |es[k].raw| < MODE_AT
  {
    Body(es, |es|) + Zeros(2 * BLOCK)
  }

  ghost predicate MemberAt(img: seq<byte>, off: nat, e: Entry)
    requires |e.raw| < MODE_AT
  {
    off + |Member(e)| <= |img| && img[off..off + |Member(e)|] == Member(e)
  }

  lemma {:induction false} BodyMember(es: seq<Entry>, n: nat, k: nat)
    requires k < n <= |es| && forall k :: 0 <= k < |es| ==> |es[k].raw| < MODE_AT
    ensures MemberAt(Body(es, n), HeaderOff(es, k), es[k])
    decreases n
  {
    hide Member, Padded;
    if k < n - 1 {
      BodyMember(es, n - 1, k);
      MemberOn(Body(es, n - 1), Member(es[n - 1]), HeaderOff(es, k), es[k]);
    }
  }

  lemma MemberOn(a: seq<byte>, b: seq<byte>, off: nat, e: Entry)
    requires |e.raw| < MODE_AT && MemberAt(a, off, e)
    ensures MemberAt(a + b, off, e)
  {
    hide Member;
    assert (a + b)[off..off + |Member(e)|] == a[off..off + |Member(e)|];
  }

  /** A header in place holds the entry's fields. */
  lemma HeaderEncodes(img: seq<byte>, off: nat, h: seq<byte>, e: Entry)
    requires e.WellFormed() && |e.data| < TWO_32 && IsHeader(h, e)
    requires off + BLOCK <= |img| && img[off..off + BLOCK] == h
    ensures NameAt(img, off, e.raw) && FieldsAt(img, off, e) && img[off + PREFIX_AT] == 0
  {
    hide Entry.Path, Octal, OctalField;
    Window(img, off, h, 0, |e.raw|);
    Window(img, off, h, MODE_AT, MODE_AT + 7);
    Window(img, off, h, SIZE_AT, SIZE_AT + 11);
    Window(img, off, h, TYPE_AT, TYPE_AT);
    Window(img, off, h, PREFIX_AT, PREFIX_AT);
    Powers();
    Written(img, off + MODE_AT, off + MODE_AT + MODE_LEN, e.mode, 7);
    Written(img, off + SIZE_AT, off + SIZE_AT + SIZE_LEN, |e.data|, 11);
    assert e.mode % 512 == e.mode;
  }

  lemma Powers()
    ensures Pow8(7) > 512 && Pow8(11) > TWO_32
  {
    assert Pow8(4) == 0x1000;
    assert Pow8(7) == 0x20_0000;
    assert Pow8(11) == 0x2_0000_0000;
  }

  /** A member in place is its entry's header and data. */
  lemma MemberEncodes(img: seq<byte>, off: nat, e: Entry)
    requires e.WellFormed() && MemberAt(img, off, e) && |e.data| < TWO_32
    ensures HeaderAt(img, off, e)
  {
    hide Header, IsHeader, Entry.Path, FieldsAt, NameAt;
    HeaderIs(e);
    var (m, h) := (Member(e), Header(e));
    assert m[..BLOCK] == h && m[BLOCK..BLOCK + |e.data|] == e.data;
    assert img[off..off + BLOCK] == h by { SubSlice(img, off, off + |m|, 0, BLOCK); }
    assert img[off + BLOCK..off + BLOCK + |e.data|] == e.data by {
      SubSlice(img, off, off + |m|, BLOCK, BLOCK + |e.data|);
    }
    HeaderEncodes(img, off, h, e);
  }

  lemma Window(img: seq<byte>, off: nat, h: seq<byte>, a: nat, b: nat)
    requires off + |h| <= |img| && img[off..off + |h|] == h && a <= b < |h|
    ensures img[off + a..off + b] == h[a..b] && img[off + b] == h[b]
  {
    SubSlice(img, off, off + |h|, a, b);
    assert img[off..off + |h|][b] == img[off + b];
  }

  lemma Written(img: seq<byte>, a: nat, z: nat, v: nat, n: nat)
    requires a + n < z <= |img| && img[a..a + n] == Octal(v, n) && img[a + n] == 0 && v < Pow8(n)
    ensures OctalField(img, a, z, v)
  {
    assert OctalDigits(img, a, z, v, n);
  }

  /** The image of a list of entries is an archive of them. */
  lemma ImageEncodes(es: seq<Entry>)
    requires Writable(es)
    ensures Encodes(Image(es), es)
  {
    var img := Image(es);
    forall k | 0 <= k < |es| ensures EncodedAt(img, es, k) {
      BodyMember(es, |es|, k);
      MemberOn(Body(es, |es|), Zeros(2 * BLOCK), HeaderOff(es, k), es[k]);
      HeaderOffGrows(es, k + 1, |es|);
      MemberEncodes(img, HeaderOff(es, k), es[k]);
    }
  }
}
