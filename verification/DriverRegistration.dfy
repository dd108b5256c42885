/**
 Loading and unloading the driver: a region of device numbers and one cdev per minor, with the rollback
 that undoes a partial registration.
 */
module DriverRegistration {
  import opened DriverObjects

  /** The minors 0 .. n-1. */
  function Minors(n: nat): (r: set<nat>)
    ensures forall i: nat :: i in r <==> i < n
  {
    if n == 0 then {} else Minors(n - 1) + {n - 1}
  }

  /** The kernel's tables for the driver's major number. */
  class Registry {
    var regions: set<nat>  // minors reserved by some region
    var cdevs: set<nat>    // minors with a live cdev

    /** A live cdev lies in a reserved region. */
    ghost predicate Valid()
      reads this
    {
      cdevs <= regions
    }

    /** register_chrdev_region: refuses an overlap; `verdict` is any other reason it has to fail. */
    method RegisterRegion(n: nat, verdict: int) returns (ret: int)
      modifies this`regions
      ensures ret == 0 <==> old(regions) !! Minors(n) && verdict == 0
      ensures ret == if old(regions) !! Minors(n) then verdict else -16
      ensures regions == if ret == 0 then old(regions) + Minors(n) else old(regions)
    {
      if regions !! Minors(n) {
        if verdict == 0 {
          regions := regions + Minors(n);
        }
        ret := verdict;
      } else {
        ret := -16; // EBUSY
      }
    }

    method UnregisterRegion(n: nat)
      modifies this`regions
      ensures regions == old(regions) - Minors(n)
    {
      regions := regions - Minors(n);
    }

    method CdevAdd(minor: nat, verdict: int) returns (ret: int)
      modifies this`cdevs
      ensures ret == verdict
      ensures cdevs == if ret == 0 then old(cdevs) + {minor} else old(cdevs)
    {
      if verdict == 0 {
        cdevs := cdevs + {minor};
      }
      ret := verdict;
    }

    method CdevDel(minor: nat)
      modifies this`cdevs
      ensures cdevs == old(cdevs) - {minor}
    {
      cdevs := cdevs - {minor};
    }
  }

  /**
   my_init, for any number of minors, any verdict on the region and any verdict on each cdev_add:
   it answers 0 exactly when nothing failed, and then the region and every cdev are registered and every
   device is closed and empty; otherwise the registry is what it was and the answer is the first failure.
   */
  method MyInit(kernel: Registry, devs: seq<Device>, verdict: int, verdicts: seq<int>) returns (ret: int)
    requires kernel.Valid() && |verdicts| == |devs|
    modifies kernel, devs
    ensures kernel.Valid()
    ensures ret == 0 <==> old(kernel.regions) !! Minors(|devs|) && verdict == 0 && forall i | 0 <= i < |devs| :: verdicts[i] == 0
    ensures ret == 0 ==>
              && kernel.regions == old(kernel.regions) + Minors(|devs|)
              && kernel.cdevs == old(kernel.cdevs) + Minors(|devs|)
              && forall i | 0 <= i < |devs| :: devs[i].access == 0 && devs[i].size == 0 && devs[i].dataReady == 0
    ensures ret != 0 ==> kernel.regions == old(kernel.regions) && kernel.cdevs == old(kernel.cdevs)
    ensures !(old(kernel.regions) !! Minors(|devs|)) ==> ret == -16
    ensures old(kernel.regions) !! Minors(|devs|) && verdict != 0 ==> ret == verdict
    ensures old(kernel.regions) !! Minors(|devs|) && verdict == 0 && ret != 0 ==>
              exists i :: 0 <= i < |verdicts| && ret == verdicts[i] && forall k | 0 <= k < i :: verdicts[k] == 0
  {
    ret := kernel.RegisterRegion(|devs|, verdict);
    if ret != 0 {
      return;
    }
    var i := 0;
    while i < |devs|
      invariant 0 <= i <= |devs| && ret == 0
      invariant kernel.regions == old(kernel.regions) + Minors(|devs|)
      invariant kernel.cdevs == old(kernel.cdevs) + Minors(i)
      invariant forall k | 0 <= k < i :: verdicts[k] == 0
      invariant forall k | 0 <= k < i :: devs[k].access == 0 && devs[k].size == 0 && devs[k].dataReady == 0
    {
      devs[i].asleep := {};  // init_waitqueue_head
      devs[i].access := 0;
      devs[i].size := 0;
      devs[i].dataReady := 0;
      ret := kernel.CdevAdd(i, verdicts[i]);
      if ret != 0 {
        Rollback(kernel, i, |devs|);
        assert old(kernel.cdevs) !! Minors(|devs|);
        return;
      }
      i := i + 1;
    }
  }

  /** The error path: delete the cdevs added so far, last first, then give the region back. */
  method Rollback(kernel: Registry, added: nat, n: nat)
    modifies kernel
    ensures kernel.cdevs == old(kernel.cdevs) - Minors(added)
    ensures kernel.regions == old(kernel.regions) - Minors(n)
  {
    var i := added - 1;
    while i >= 0
      invariant -1 <= i < added
      invariant kernel.regions == old(kernel.regions)
      invariant kernel.cdevs == old(kernel.cdevs) - (Minors(added) - Minors(i + 1))
    {
      kernel.CdevDel(i);
      i := i - 1;
    }
    kernel.UnregisterRegion(n);
  }

  /** my_exit. */
  method MyExit(kernel: Registry, n: nat)
    modifies kernel
    ensures kernel.cdevs == old(kernel.cdevs) - Minors(n)
    ensures kernel.regions == old(kernel.regions) - Minors(n)
  {
    for i := 0 to n
      invariant kernel.regions == old(kernel.regions)
      invariant kernel.cdevs == old(kernel.cdevs) - Minors(i)
    {
      kernel.CdevDel(i);
    }
    kernel.UnregisterRegion(n);
  }

  /** Loading and then unloading leaves the registry as it was, whether or not loading succeeded. */
  method LoadThenUnload(kernel: Registry, devs: seq<Device>, verdict: int, verdicts: seq<int>)
    requires kernel.Valid() && |verdicts| == |devs|
    modifies kernel, devs
    ensures kernel.regions == old(kernel.regions) && kernel.cdevs == old(kernel.cdevs)
  {
    var ret := MyInit(kernel, devs, verdict, verdicts);
    if ret == 0 {
      assert old(kernel.cdevs) !! Minors(|devs|);
      MyExit(kernel, |devs|);
    }
  }
}
