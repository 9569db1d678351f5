/** Sizing the partitions of a disk, in MiB (src/installer/partition.c:105-172, with the constants
    of src/installer/arch_defs.h:64-69). */
module Partition {

  const DISK_MINIMUM := 480
  const ROOT_MINIMUM := 256
  const ROOT_MAXIMUM := 512
  const SWAP_MINIMUM := 32
  const SWAP_MAXIMUM := 256
  const LOGCOMPRESSED := 64

  /** The C quotient n / 4, which truncates toward zero. */
  function Quarter(n: int): int {
    if n >= 0 then n / 4 else -(-n / 4)
  }

  function Min(a: int, b: int): int {
    if a < b then a else b
  }

  datatype Layout = Layout(swap: int, root: int, log: int)

  /** Space beyond the minimum, of the disk less the safety margin of 1 MiB. */
  function Surplus(diskSize: int): int {
    diskSize - 1 - DISK_MINIMUM
  }

  /** A swap size asked for is kept if root and swap leave something. */
  predicate Accepted(diskSize: int, swapFile: int) {
    swapFile != -1 && ROOT_MINIMUM + swapFile < diskSize - 1
  }

  function SwapSize(diskSize: int, swapFile: int): int {
    if Accepted(diskSize, swapFile) then swapFile
    else Min(SWAP_MINIMUM + Quarter(Surplus(diskSize)), SWAP_MAXIMUM)
  }

  /** The sizes in closed form: a quarter of the surplus for root, up to its maximum, the swap file on
      top of it, and the rest for the log. */
  function LayoutOf(diskSize: int, swapFile: int, flash: bool): Layout {
    if flash then Layout(0, diskSize - 1 - LOGCOMPRESSED, LOGCOMPRESSED)
    else
      var swap := SwapSize(diskSize, swapFile);
      var root := Min(ROOT_MINIMUM + Quarter(Surplus(diskSize)), ROOT_MAXIMUM) + swap;
      Layout(swap, root, diskSize - 1 - root)
  }

  method MakePartitions(size: int, swapFile: int, flash: bool) returns (swap: int, root: int, log: int)
    ensures Layout(swap, root, log) == LayoutOf(size, swapFile, flash)
  {
    var diskSize := size - 1;
    swap := swapFile;
    if flash {
      swap := 0;
      log := LOGCOMPRESSED;
      root := diskSize - log;
    } else {
      var currentFree;
      root := ROOT_MINIMUM;
      if swap != -1 && ROOT_MINIMUM + swap >= diskSize {
        swap := -1;
      }
      if swap == -1 {
        swap := SWAP_MINIMUM;
        log := DISK_MINIMUM - ROOT_MINIMUM - SWAP_MINIMUM;
        currentFree := diskSize - root - log - swap;
        swap := swap + Quarter(currentFree);
        if swap > SWAP_MAXIMUM {
          swap := SWAP_MAXIMUM;
        }
      } else {
        log := DISK_MINIMUM - ROOT_MINIMUM - swap;
        currentFree := diskSize - root - log - swap;
      }
      root := root + Quarter(currentFree);
      if root > ROOT_MAXIMUM {
        root := ROOT_MAXIMUM;
      }
      root := root + swap;
    }
    log := diskSize - root;
  }

  // ---- automatic swap ----

  /** A disk of the required size gets partitions within their limits. */
  lemma AutomaticLayout(diskSize: int)
    requires diskSize >= DISK_MINIMUM
    ensures var l := LayoutOf(diskSize, -1, false);
            && l.root + l.log == diskSize - 1
            && 32 <= l.swap <= 256
            && 256 <= l.root - l.swap <= 512
            && l.log >= 191
  {
    var f := Surplus(diskSize);
    assert f >= -1 && Quarter(f) <= f / 4 + 1 && 0 <= Quarter(f);
    assert f >= 0 ==> 4 * Quarter(f) <= f;
  }

  /** Swap and root never shrink as the disk grows. */
  lemma LayoutIsMonotone(small: int, large: int)
    requires DISK_MINIMUM <= small <= large
    ensures LayoutOf(small, -1, false).swap <= LayoutOf(large, -1, false).swap
    ensures LayoutOf(small, -1, false).root <= LayoutOf(large, -1, false).root
  {
    assert Quarter(Surplus(small)) <= Quarter(Surplus(large));
  }

  /** The log may shrink by one when both quarters grow, but over four MiB it never does. */
  lemma LogIsNotMonotone(diskSize: int)
    requires diskSize >= DISK_MINIMUM
    ensures LayoutOf(485, -1, false).log < LayoutOf(484, -1, false).log
    ensures LayoutOf(diskSize, -1, false).log < LayoutOf(diskSize + 4, -1, false).log
    ensures LayoutOf(diskSize, -1, false).log - 1 <= LayoutOf(diskSize + 1, -1, false).log
  {
    var f := Surplus(diskSize);
    assert Quarter(f + 4) <= Quarter(f) + 1;
    assert Quarter(f + 1) <= Quarter(f) + 1;
  }

  // ---- forced swap ----

  /** A swap size leaves room for the log on every disk that accepts it exactly up to 226 MiB. */
  lemma LogSurvivesIffSwapAtMost226(swapFile: int)
    requires swapFile >= 0
    ensures (forall diskSize :: diskSize >= DISK_MINIMUM && Accepted(diskSize, swapFile)
               ==> LayoutOf(diskSize, swapFile, false).log > 0)
       <==> swapFile <= 226
  {
    if swapFile <= 226 {
      forall diskSize | diskSize >= DISK_MINIMUM && Accepted(diskSize, swapFile)
        ensures LayoutOf(diskSize, swapFile, false).log > 0
      {
        var f := Surplus(diskSize);
        assert f >= 0 ==> 4 * Quarter(f) <= f;
      }
    } else {
      var diskSize := swapFile + 258;
      assert Quarter(Surplus(diskSize)) >= 1;
      assert Accepted(diskSize, swapFile) && LayoutOf(diskSize, swapFile, false).log <= 0;
    }
  }

  /** The largest swap the installer lets through on the smallest disk that accepts it. */
  lemma ForcedSwapOvercommits()
    ensures Accepted(514, 256) && LayoutOf(514, 256, false) == Layout(256, 520, -7)
  {
    assert Quarter(33) == 8;
  }

  // ---- the sizes in numbers ----

  /** Without a swap size the swap file grows from 32 MiB by a quarter of what the disk has beyond 481 MiB,
      until it reaches 256 MiB at 1377; the root partition without it grows from 256 in the same way and
      reaches 512 at 1505; the log gets the rest of the disk but one MiB. */
  lemma AutomaticSizes(diskSize: int)
    requires diskSize >= 480
    ensures var l := LayoutOf(diskSize, -1, false);
            var surplus := if diskSize > 481 then diskSize - 481 else 0;
            && (diskSize >= 1377 ==> l.swap == 256)
            && (diskSize < 1377 ==> l.swap < 256 && 4 * (l.swap - 32) <= surplus < 4 * (l.swap - 31))
            && (diskSize >= 1505 ==> l.root == l.swap + 512)
            && (diskSize < 1505 ==> l.root < l.swap + 512 && 4 * (l.root - l.swap - 256) <= surplus < 4 * (l.root - l.swap - 255))
            && l.log == diskSize - 1 - l.root
  {
  }

  /** A swap size is kept if it leaves more than 256 MiB of the disk but one; otherwise the size is
      automatic.  On flash there is no swap, and 64 MiB of log. */
  lemma ChosenSizes(diskSize: int, swapFile: int)
    requires diskSize >= 480
    ensures LayoutOf(diskSize, swapFile, true) == Layout(0, diskSize - 65, 64)
    ensures var l, auto := LayoutOf(diskSize, swapFile, false), LayoutOf(diskSize, -1, false);
            if swapFile == -1 || swapFile >= diskSize - 257 then l == auto
            else l == Layout(swapFile, swapFile + (auto.root - auto.swap), diskSize - 1 - swapFile - (auto.root - auto.swap))
  {
  }
}
