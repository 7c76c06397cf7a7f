/**
  The I/O class of a request: where its page comes from and, for a regular
  file, how large the file is.  The size class has two implementations, an
  x86-64 instruction sequence and portable C, modelled here bit by bit.
 */
module FileClass {
  import opened Common

  const UNCLASSIFIED: int := 0
  const METADATA: int := 1
  const DATA_DIR: int := 7
  const DATA_FILE_4KB: int := 11
  const DATA_FILE_BULK: int := 21
  const DATA_DIRECT: int := 22
  const MISC: int := 23

  const TWO63: int := 0x8000_0000_0000_0000

  // ------------------------------------------------------------------- bits

  function Pow2(k: nat): (p: nat)
    ensures p >= 1
  {
    if k == 0 then 1 else 2 * Pow2(k - 1)
  }

  /** Bitwise or. */
  function Or(a: nat, b: nat): nat
    decreases a + b
  {
    if a == 0 && b == 0 then 0
    else 2 * Or(a / 2, b / 2) + (if a % 2 == 1 || b % 2 == 1 then 1 else 0)
  }

  /** Index of the highest set bit, -1 if there is none. */
  function HighestBit(n: nat): (b: int)
    ensures b >= -1 && (b == -1 <==> n == 0)
  {
    if n == 0 then -1 else 1 + HighestBit(n / 2)
  }

  lemma {:induction false} HighestBitBounds(n: nat)
    requires n > 0
    ensures Pow2(HighestBit(n)) <= n < 2 * Pow2(HighestBit(n))
  {
    if n > 1 { HighestBitBounds(n / 2); }
  }

  lemma {:induction false} HighestBitIs(n: nat, b: nat)
    requires Pow2(b) <= n < 2 * Pow2(b)
    ensures HighestBit(n) == b
  {
    if b > 0 { HighestBitIs(n / 2, b - 1); }
  }

  /** The highest bit of a bitwise or is the higher of the two. */
  lemma {:induction false} HighestBitOr(a: nat, b: nat)
    ensures var x, y := HighestBit(a), HighestBit(b);
            HighestBit(Or(a, b)) == if x >= y then x else y
    decreases a + b
  {
    if a > 0 || b > 0 {
      HighestBitOr(a / 2, b / 2);
      var r := Or(a / 2, b / 2);
      assert Or(a, b) / 2 == r;
    }
  }

  lemma {:induction false} Pow2Grows(i: nat, j: nat)
    requires i <= j
    ensures Pow2(i) <= Pow2(j)
    decreases j
  {
    if i < j { Pow2Grows(i, j - 1); }
  }

  // -------------------------------------------------------- size classifiers

  /** A 64-bit register holding `x`. */
  function Wrap(x: int): nat {
    x % TWO64
  }

  /** sub, or, bsr, shr, add, then the conditional move that caps at 21. */
  function AssemblerClass(size: int): int {
    var rax := Or(Wrap(size - 1), 4095);
    var eax := HighestBit(rax) / 2 + 6;
    if eax >= DATA_FILE_BULK then DATA_FILE_BULK else eax
  }

  /** `__builtin_clzl` of a 64-bit value. */
  function LeadingZeros(x: nat): int {
    63 - HighestBit(x)
  }

  function PortableClass(size: int): int {
    if size <= 1024 * 1048576 then
      (64 - LeadingZeros(Or(Wrap(size - 1), 4095)) + DATA_FILE_4KB) / 2
    else DATA_FILE_BULK
  }

  /** Class 11 holds files up to 4 KiB; each next class four times as much. */
  function Limit(k: nat): (l: nat)
    requires k >= 11
    ensures l > 0
  {
    if k == 11 then 4096 else 4 * Limit(k - 1)
  }

  /** `k` is the least class in 11..20 whose limit covers `size`, or 21. */
  ghost predicate IsSizeClass(size: int, k: int) {
    || (11 <= k <= 20 && size <= Limit(k) && forall j :: 11 <= j < k ==> size > Limit(j))
    || (k == 21 && forall j :: 11 <= j <= 20 ==> size > Limit(j))
  }

  lemma {:induction false} LimitPow2(k: nat)
    requires k >= 11
    ensures Limit(k) == Pow2(2 * k - 10)
  {
    if k == 11 {
      assert Pow2(4) == 16;
      assert Pow2(8) == 256;
      assert Pow2(12) == 4096;
    } else {
      LimitPow2(k - 1);
      assert Pow2(2 * k - 10) == 2 * Pow2(2 * k - 11) == 4 * Pow2(2 * k - 12);
    }
  }

  lemma {:induction false} LimitGrows(i: nat, j: nat)
    requires 11 <= i <= j
    ensures Limit(i) <= Limit(j)
    decreases j
  {
    if i < j { LimitGrows(i, j - 1); }
  }

  lemma {:induction false} LowMask()
    ensures HighestBit(4095) == 11 && Pow2(11) == 2048 && Pow2(12) == 4096
  {}

  /** The bit both classifiers look at. */
  function TopBit(size: int): int {
    HighestBit(Or(Wrap(size - 1), 4095))
  }

  lemma {:induction false} MaskedBounds(x: nat, mask: nat)
    requires HighestBit(mask) == 11
    ensures var b := HighestBit(Or(x, mask)); b >= 11 && x < Pow2(b + 1) && (b > 11 ==> x >= Pow2(b))
  {
    HighestBitOr(x, mask);
    HigherBitBounds(x, HighestBit(Or(x, mask)));
  }

  lemma {:induction false} TopBitBounds(size: int)
    requires 1 <= size < TWO63
    ensures TopBit(size) >= 11 && size <= Pow2(TopBit(size) + 1)
    ensures TopBit(size) > 11 ==> size > Pow2(TopBit(size))
  {
    LowMask();
    WrapSmall(size - 1);
    MaskedBounds(size - 1, 4095);
  }

  lemma {:induction false} WrapSmall(x: nat)
    requires x < TWO64
    ensures Wrap(x) == x
  {}

  lemma {:induction false} HigherBitBounds(x: nat, b: nat)
    requires b == if HighestBit(x) >= 11 then HighestBit(x) else 11
    ensures x < Pow2(b + 1) && (b > 11 ==> x >= Pow2(b))
  {
    if x > 0 {
      HighestBitBounds(x);
      if HighestBit(x) < 11 { Pow2Grows(HighestBit(x) + 1, 12); }
    }
  }

  /** The class is half the bit plus six, capped. */
  lemma {:induction false} ClassOfBit(size: int, b: nat)
    requires b >= 11 && 1 <= size <= Pow2(b + 1) && (b > 11 ==> size > Pow2(b))
    ensures IsSizeClass(size, if b / 2 + 6 >= 21 then 21 else b / 2 + 6)
  {
    var t := b / 2 + 6;
    if t <= 20 {
      LimitPow2(t);
      Pow2Grows(b + 1, 2 * t - 10);
      if t > 11 { AboveLimit(size, b, t); }
    } else {
      AboveLimit(size, b, 21);
    }
  }

  lemma {:induction false} AboveLimit(size: int, b: nat, k: nat)
    requires 11 < k && 2 * k - 12 <= b && size > Pow2(b)
    ensures forall j :: 11 <= j < k ==> size > Limit(j)
  {
    forall j | 11 <= j < k ensures size > Limit(j) {
      LimitPow2(j);
      Pow2Grows(2 * j - 10, b);
    }
  }

  /** For every file that is not empty the instruction sequence computes the
      size class. */
  lemma {:induction false} AssemblerIsSizeClass(size: int)
    requires 1 <= size < TWO63
    ensures IsSizeClass(size, AssemblerClass(size))
  {
    TopBitBounds(size);
    ClassOfBit(size, TopBit(size));
  }

  lemma {:induction false} FromTopBit(size: int, b: int)
    requires b == TopBit(size)
    ensures AssemblerClass(size) == if b / 2 + 6 >= 21 then 21 else b / 2 + 6
    ensures PortableClass(size) == if size <= 1024 * 1048576 then b / 2 + 6 else 21
  {}

  lemma {:induction false} NonEmptyAgrees(size: int)
    requires 1 <= size < TWO63
    ensures AssemblerClass(size) == PortableClass(size)
  {
    AssemblerIsSizeClass(size);
    TenTwentyFour();
    FromTopBit(size, TopBit(size));
  }

  lemma {:induction false} EmptyDiffers()
    ensures AssemblerClass(0) == 21 && PortableClass(0) == 37
  {
    AllOnes();
    FromTopBit(0, 63);
  }

  /** The two implementations agree exactly on the files that are not empty; an
      empty one is class 21 in assembler and 37 in C. */
  lemma {:induction false} ImplementationsAgreeIff(size: int)
    requires 0 <= size < TWO63
    ensures AssemblerClass(size) == PortableClass(size) <==> size >= 1
    ensures size == 0 ==> AssemblerClass(size) == 21 && PortableClass(size) == 37
  {
    if size == 0 { EmptyDiffers(); } else { NonEmptyAgrees(size); }
  }

  lemma {:induction false} TenTwentyFour()
    ensures Limit(20) == 1024 * 1048576
  {}

  lemma {:induction false} AllOnes()
    ensures HighestBit(Or(Wrap(-1), 4095)) == 63
  {
    HighestBitOr(TWO64 - 1, 4095);
    PowerFacts();
    HighestBitIs(TWO64 - 1, 63);
    HighestBitIs(4095, 11);
  }

  lemma {:induction false} PowerFacts()
    ensures Pow2(11) == 2048 && Pow2(63) == TWO63
  {
    assert Pow2(4) == 16 && Pow2(8) == 256;
    assert Pow2(11) == 2048;
    PowAdd(16, 16);
    PowAdd(8, 8);
    PowAdd(32, 31);
    PowAdd(16, 15);
    PowAdd(8, 7);
    assert Pow2(7) == 128;
  }

  lemma {:induction false} PowAdd(i: nat, j: nat)
    ensures Pow2(i + j) == Pow2(i) * Pow2(j)
  {
    if j > 0 { PowAdd(i, j - 1); }
  }

  lemma {:induction false} Monotone(a: int, b: int)
    requires 1 <= a <= b < TWO63
    ensures AssemblerClass(a) <= AssemblerClass(b)
  {
    AssemblerIsSizeClass(a);
    AssemblerIsSizeClass(b);
  }

  // ----------------------------------------------------------------- a request

  datatype Kind = Regular | Directory | BlockDevice | Other

  datatype FileInode = FileInode(kind: Kind, size: int)

  /** `host` is `page->mapping->host`; no mapping at all is `mapped == false`. */
  datatype Page = Page(anon: bool, slab: bool, compound: bool, mapped: bool, host: Option<FileInode>)

  /** `_file_size_to_io_class` */
  function SizeClass(inode: FileInode, x86: bool): int {
    match inode.kind
    case Regular => if x86 then AssemblerClass(inode.size) else PortableClass(inode.size)
    case Directory => DATA_DIR
    case _ => MISC
  }

  /** `struct bio_info`: what the classifier records for its caller. */
  datatype Info = Info(page: Page, inode: FileInode)

  /** `_get_dss_io_class` */
  function RequestClass(page: Option<Page>, x86: bool): (r: (int, Option<Info>)) {
    if page.None? then (UNCLASSIFIED, None)
    else
      var p := page.value;
      if p.anon then (DATA_DIRECT, None)
      else if p.slab || p.compound || !p.mapped then (METADATA, None)
      else if p.host.None? then (UNCLASSIFIED, None)
      else if p.host.value.kind.BlockDevice? then (METADATA, None)
      else (SizeClass(p.host.value, x86), Some(Info(p, p.host.value)))
  }

  /** Every kind of page has its class: none 0, anonymous 22, pages outside the
      page cache and block-device pages 1, no inode 0, directories 7, other files
      23, and regular files that are not empty their size class. */
  lemma {:induction false} ClassOfPage(page: Option<Page>, x86: bool)
    requires page.Some? && page.value.host.Some? ==> 0 <= page.value.host.value.size < TWO63
    ensures page.None? ==> RequestClass(page, x86) == (0, None)
    ensures page.Some? && page.value.anon ==> RequestClass(page, x86) == (22, None)
    ensures page.Some? && !page.value.anon && (page.value.slab || page.value.compound || !page.value.mapped) ==>
              RequestClass(page, x86) == (1, None)
    ensures page.Some? && Cached(page.value) ==>
              match page.value.host
              case None => RequestClass(page, x86) == (0, None)
              case Some(inode) =>
                match inode.kind
                case BlockDevice => RequestClass(page, x86) == (1, None)
                case Directory => RequestClass(page, x86) == (7, Some(Info(page.value, inode)))
                case Other => RequestClass(page, x86) == (23, Some(Info(page.value, inode)))
                case Regular =>
                  && RequestClass(page, x86).1 == Some(Info(page.value, inode))
                  && (inode.size >= 1 ==> IsSizeClass(inode.size, RequestClass(page, x86).0))
                  && (inode.size == 0 ==> RequestClass(page, x86).0 == if x86 then 21 else 37)
  {
    if page.Some? && page.value.host.Some? {
      var size := page.value.host.value.size;
      ImplementationsAgreeIff(size);
      if size >= 1 { AssemblerIsSizeClass(size); }
    }
  }

  /** A page of the page cache. */
  predicate Cached(p: Page) {
    !p.anon && !p.slab && !p.compound && p.mapped
  }

  /** The caller names the file exactly for classes 11..21.  That happens only
      with page and inode of a regular file recorded, and for such a file
      always, unless it is empty and the portable classifier is used. */
  lemma {:induction false} NamedIff(page: Option<Page>, x86: bool)
    requires page.Some? && page.value.host.Some? ==> 0 <= page.value.host.value.size < TWO63
    ensures var (tag, info) := RequestClass(page, x86);
            && (info.Some? ==> page == Some(info.value.page) && info.value.page.host == Some(info.value.inode))
            && (DATA_FILE_4KB <= tag <= DATA_FILE_BULK <==>
                  info.Some? && info.value.inode.kind.Regular? && (x86 || info.value.inode.size >= 1))
  {
    var (tag, info) := RequestClass(page, x86);
    if info.Some? && info.value.inode.kind.Regular? {
      var size := info.value.inode.size;
      ImplementationsAgreeIff(size);
      if size >= 1 { AssemblerIsSizeClass(size); }
    }
  }
}
