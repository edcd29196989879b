/**
 * Command-line validation of the cache simulator (csf_assign03/main.cpp):
 * three geometry numbers that must be powers of two, a minimum block size,
 * three policy words and one forbidden policy combination.
 */
module CacheConfig {
  import opened MachineInts

  // ---------------------------------------------------------------------
  // Powers of two
  // ---------------------------------------------------------------------

  function Pow2(k: nat): (p: nat)
    ensures p >= 1
  {
    if k == 0 then 1 else 2 * Pow2(k - 1)
  }

  /** x is 2^k for some k. */
  ghost predicate IsPow2(x: int) {
    exists k: nat :: Pow2(k) == x
  }

  /** Bitwise AND of two naturals, bit by bit from the least significant. */
  function And(x: nat, y: nat): nat {
    if x == 0 || y == 0 then 0
    else 2 * And(x / 2, y / 2) + (if x % 2 == 1 && y % 2 == 1 then 1 else 0)
  }

  /** isPowerOfTwo: `x && (x & (x - 1)) == 0`; the subtraction is reached only for x > 0. */
  function IsPowerOfTwo(x: u64): bool {
    x != 0 && And(x, x - 1) == 0
  }

  lemma {:induction false} AndSelf(x: nat)
    ensures And(x, x) == x
  {
    if x > 0 {
      AndSelf(x / 2);
    }
  }

  lemma {:induction false} PowerHasNoLowerBits(k: nat)
    ensures And(Pow2(k), Pow2(k) - 1) == 0
  {
    if k > 0 {
      PowerHasNoLowerBits(k - 1);
      assert Pow2(k) / 2 == Pow2(k - 1) && (Pow2(k) - 1) / 2 == Pow2(k - 1) - 1;
    }
  }

  lemma {:induction false} NoLowerBitsIsPower(x: nat)
    requires x > 0 && And(x, x - 1) == 0
    ensures IsPow2(x)
  {
    if x == 1 {
      assert Pow2(0) == x;
    } else if x % 2 == 1 {
      AndSelf(x / 2);
      assert false;
    } else {
      var m := x / 2;
      assert (x - 1) / 2 == m - 1;
      NoLowerBitsIsPower(m);
      var k: nat :| Pow2(k) == m;
      assert Pow2(k + 1) == x;
    }
  }

  /** isPowerOfTwo(x) holds exactly for x = 2^k; in particular not for 0. */
  lemma PowerOfTwoIff(x: u64)
    ensures IsPowerOfTwo(x) <==> IsPow2(x)
  {
    if IsPowerOfTwo(x) {
      NoLowerBitsIsPower(x);
    }
    if exists k: nat :: Pow2(k) == x {
      var k: nat :| Pow2(k) == x;
      PowerHasNoLowerBits(k);
    }
  }

  // ---------------------------------------------------------------------
  // The checks in main
  // ---------------------------------------------------------------------

  /** The six arguments after the program name, numbers already converted. */
  datatype Args = Args(sets: u64, blocksPerSet: u64, bytesPerBlock: u64,
                       alloc: string, write: string, evict: string)

  /** One diagnostic main prints to standard error. */
  datatype Problem =
    | NotPowersOfTwo
    | BlockTooSmall
    | BadAllocationPolicy
    | BadWritePolicy
    | BadEvictionPolicy
    | NoWriteAllocateWithWriteBack

  /** Every check is evaluated in order, and each failing one reports its problem. */
  function Problems(a: Args): seq<Problem>
  {
    Report(!IsPowerOfTwo(a.sets) || !IsPowerOfTwo(a.blocksPerSet) || !IsPowerOfTwo(a.bytesPerBlock), NotPowersOfTwo)
    + Report(a.bytesPerBlock < 4, BlockTooSmall)
    + Report(!(a.alloc == "write-allocate" || a.alloc == "no-write-allocate"), BadAllocationPolicy)
    + Report(!(a.write == "write-through" || a.write == "write-back"), BadWritePolicy)
    + Report(!(a.evict == "lru" || a.evict == "fifo"), BadEvictionPolicy)
    + Report(a.alloc == "no-write-allocate" && a.write == "write-back", NoWriteAllocateWithWriteBack)
  }

  /** One `if (...) { cerr << ...; ok = false; }` block. */
  function Report(fails: bool, p: Problem): (ps: seq<Problem>)
    ensures p in ps <==> fails
    ensures |ps| == (if fails then 1 else 0)
  {
    if fails then [p] else []
  }

  /** Each problem is reported exactly when its check fails, whatever the other checks say. */
  lemma ProblemsReported(a: Args)
    ensures NotPowersOfTwo in Problems(a)
            <==> !(IsPowerOfTwo(a.sets) && IsPowerOfTwo(a.blocksPerSet) && IsPowerOfTwo(a.bytesPerBlock))
    ensures BlockTooSmall in Problems(a) <==> a.bytesPerBlock < 4
    ensures BadAllocationPolicy in Problems(a) <==> a.alloc !in {"write-allocate", "no-write-allocate"}
    ensures BadWritePolicy in Problems(a) <==> a.write !in {"write-through", "write-back"}
    ensures BadEvictionPolicy in Problems(a) <==> a.evict !in {"lru", "fifo"}
    ensures NoWriteAllocateWithWriteBack in Problems(a) <==> a.alloc == "no-write-allocate" && a.write == "write-back"
  {
  }

  /** main's exit status: 1 for a wrong argument count or any failed check, else 0. */
  function ExitStatus(argc: int, a: Args): (status: int)
    ensures status == 0 || status == 1
    ensures status == 0 <==> argc == 7 && |Problems(a)| == 0
  {
    if argc != 7 then 1
    else
      var ok := |Problems(a)| == 0;
      if !ok then 1 else 0
  }

  /** The accepted configurations, stated without the bit trick. */
  ghost predicate ValidConfig(a: Args) {
    && IsPow2(a.sets) && IsPow2(a.blocksPerSet) && IsPow2(a.bytesPerBlock)
    && a.bytesPerBlock >= 4
    && a.alloc in {"write-allocate", "no-write-allocate"}
    && a.write in {"write-through", "write-back"}
    && a.evict in {"lru", "fifo"}
    && !(a.alloc == "no-write-allocate" && a.write == "write-back")
  }

  /** main exits with 0 exactly for seven arguments that form a valid configuration. */
  lemma ExitStatusZeroIff(argc: int, a: Args)
    ensures ExitStatus(argc, a) == 0 <==> argc == 7 && ValidConfig(a)
  {
    PowerOfTwoIff(a.sets);
    PowerOfTwoIff(a.blocksPerSet);
    PowerOfTwoIff(a.bytesPerBlock);
  }
}
