/** The paravirtual clock of one vCPU and its update (kvm/x86.c:1515-1660, 6041-6042).  Times are unbounded;
    `pvclock_scale_delta` may be any function that is monotone in the elapsed cycles and starts at zero. */
module GuestClock {
  import TimeScale

  type ScaleFn = (nat, nat, int) -> nat

  ghost predicate Grows(scale: ScaleFn, a: nat, b: nat, mul: nat, shift: int) {
    scale(0, mul, shift) == 0 && (a <= b ==> scale(a, mul, shift) <= scale(b, mul, shift))
  }

  ghost predicate Monotone(scale: ScaleFn) { forall a, b, mul, shift :: Grows(scale, a, b, mul, shift) }

  lemma StartsAtZero(scale: ScaleFn, mul: nat, shift: int)
    requires Monotone(scale)
    ensures scale(0, mul, shift) == 0
  {
    assert Grows(scale, 0, 0, mul, shift);
  }

  /** `pvclock_vcpu_time_info`, the fields the guest computes with. */
  datatype HvClock = HvClock(tscTimestamp: nat, systemTime: int, mul: nat, shift: int)

  /** What the guest reads at TSC value `tsc`. */
  function At(scale: ScaleFn, c: HvClock, tsc: nat): int
    requires tsc >= c.tscTimestamp
  {
    c.systemTime + scale(tsc - c.tscTimestamp, c.mul, c.shift)
  }

  /** `max_kernel_ns`: the time that the guest may have seen, before the clock offset. */
  function MaxKernelNs(scale: ScaleFn, c: HvClock, lastKernelNs: int, lastGuestTsc: nat): int
    requires lastGuestTsc >= c.tscTimestamp
  {
    if c.tscTimestamp != 0 then scale(lastGuestTsc - c.tscTimestamp, c.mul, c.shift) + lastKernelNs else 0
  }

  function Clamped(maxKernelNs: int, kernelNs: int, useMasterClock: bool): int {
    if !useMasterClock && maxKernelNs > kernelNs then maxKernelNs else kernelNs
  }

  /** The clamp works for every host time exactly if there is no master clock and the old timestamp is not zero,
      unless the guest cannot have seen a positive time anyway. */
  lemma ClampExactly(scale: ScaleFn, c: HvClock, lastKernelNs: int, lastGuestTsc: nat, useMasterClock: bool)
    requires Monotone(scale) && lastGuestTsc >= c.tscTimestamp
    ensures var seen := scale(lastGuestTsc - c.tscTimestamp, c.mul, c.shift) + lastKernelNs;
            var m := MaxKernelNs(scale, c, lastKernelNs, lastGuestTsc);
            (forall kernelNs: nat :: Clamped(m, kernelNs, useMasterClock) >= seen) <==>
            (!useMasterClock && c.tscTimestamp != 0) || seen <= 0
  {
    var seen := scale(lastGuestTsc - c.tscTimestamp, c.mul, c.shift) + lastKernelNs;
    var m := MaxKernelNs(scale, c, lastKernelNs, lastGuestTsc);
    if forall kernelNs: nat :: Clamped(m, kernelNs, useMasterClock) >= seen {
      assert Clamped(m, 0, useMasterClock) >= seen;
    }
  }

  /** The factor that the clock holds is the one for the TSC rate it was last given, if it was given any. */
  ghost predicate FactorFor(c: HvClock, khz: nat) {
    khz != 0 ==>
      && khz < TimeScale.B32 && TimeScale.B31 - 1 <= c.mul < TimeScale.B32 && -42 <= c.shift <= 75
      && TimeScale.ErrorBound(TimeScale.Factor(c.mul, c.shift), 1000000, khz)
  }

  datatype Event = Enter | Exit(tsc: nat) | Read(tsc: nat)
                 | Update(l1Tsc: nat, kernelNs: nat, khz: nat, catchup: nat, pvTimeEnabled: bool)

  class VcpuClock {
    const scale: ScaleFn
    const offset: int  // kvmclock_offset
    var hv: HvClock
    var version: nat
    var lastKernelNs: int
    var lastGuestTsc: nat
    var hwTscKhz: nat
    var running: bool    // the guest executes
    var now: nat         // the latest TSC value anyone observed
    ghost var seen: int  // the latest time the guest read, if it read the clock at all
    ghost var read: bool

    ghost predicate Valid()
      reads this
    {
      && Monotone(scale) && hv.tscTimestamp <= lastGuestTsc <= now
      && (read ==> hv.tscTimestamp != 0)
      && (hv.tscTimestamp != 0 ==> hv.systemTime == lastKernelNs + offset)
      && FactorFor(hv, hwTscKhz)
      && (read ==> seen <= At(scale, hv, if running then now else lastGuestTsc))
    }

    constructor (scale: ScaleFn, offset: int)
      requires Monotone(scale)
      ensures Valid() && !running && !read && this.scale == scale && this.offset == offset
    {
      this.scale, this.offset := scale, offset;
      hv, version, lastKernelNs, lastGuestTsc, hwTscKhz := HvClock(0, 0, 0, 0), 0, 0, 0, 0;
      running, now, seen, read := false, 0, 0, false;
    }

    method Enter()
      requires Valid() && !running
      modifies this
      ensures Valid() && running && hv == old(hv) && lastGuestTsc == old(lastGuestTsc)
      ensures (read, seen, now) == old((read, seen, now))
      ensures (hwTscKhz, lastKernelNs, version) == old((hwTscKhz, lastKernelNs, version))
    {
      running := true;
      assert Grows(scale, lastGuestTsc - hv.tscTimestamp, now - hv.tscTimestamp, hv.mul, hv.shift);
    }

    /** `last_guest_tsc` is taken right after the guest stopped. */
    method Exit(tsc: nat)
      requires Valid() && running && tsc >= now
      modifies this
      ensures Valid() && !running && hv == old(hv) && lastGuestTsc == tsc == now
      ensures (read, seen) == old((read, seen))
      ensures (hwTscKhz, lastKernelNs, version) == old((hwTscKhz, lastKernelNs, version))
    {
      assert Grows(scale, now - hv.tscTimestamp, tsc - hv.tscTimestamp, hv.mul, hv.shift);
      running := false;
      lastGuestTsc := tsc;
      now := tsc;
    }

    /** The guest never reads a time below one it has read before. */
    method GuestRead(tsc: nat) returns (time: int)
      requires Valid() && running && tsc >= now && hv.tscTimestamp != 0
      modifies this`now, this`seen, this`read
      ensures Valid() && now == tsc && read && seen == time
      ensures time == hv.systemTime + scale(tsc - hv.tscTimestamp, hv.mul, hv.shift)
      ensures old(read) ==> time >= old(seen)
    {
      time := At(scale, hv, tsc);
      assert Grows(scale, now - hv.tscTimestamp, tsc - hv.tscTimestamp, hv.mul, hv.shift);
      now, seen, read := tsc, time, true;
    }

    /** `kvm_guest_time_update`.  `l1Tsc` and `kernelNs` are the samples taken, or the master clock's pair; the TSC
        has not been reset, so it is not below anything observed before.  `catchup` is the TSC that elapsed time
        asks for, if the vCPU's TSC has to catch up. */
    method GuestTimeUpdate(useMasterClock: bool, l1Tsc: nat, kernelNs: nat, khz: nat, catchup: nat,
        pvTimeEnabled: bool) returns (r: int)
      requires Valid() && !running && now <= l1Tsc && 0 < l1Tsc && khz < TimeScale.B32
      modifies this
      ensures Monotone(scale) && hv.tscTimestamp <= lastGuestTsc <= now
      ensures r == if khz == 0 then 1 else 0
      ensures khz == 0 ==> unchanged(this)
      ensures khz != 0 && !pvTimeEnabled ==>
                && Valid() && now == (if catchup > l1Tsc then catchup else l1Tsc)
                && unchanged(`hv) && unchanged(`hwTscKhz) && unchanged(`lastKernelNs) && unchanged(`lastGuestTsc)
                && unchanged(`version)
      ensures khz != 0 && pvTimeEnabled ==>
                && hv.tscTimestamp == lastGuestTsc == now == (if catchup > l1Tsc then catchup else l1Tsc)
                && hv.systemTime == lastKernelNs + offset
                && lastKernelNs ==
                     Clamped(old(MaxKernelNs(scale, hv, lastKernelNs, lastGuestTsc)), kernelNs, useMasterClock)
                && hwTscKhz == khz && (old(hwTscKhz) == khz ==> (hv.mul, hv.shift) == old((hv.mul, hv.shift)))
                && TimeScale.B31 - 1 <= hv.mul < TimeScale.B32 && -42 <= hv.shift <= 75
                && TimeScale.ErrorBound(TimeScale.Factor(hv.mul, hv.shift), 1000000, khz)
                && version == old(version) + 2
      ensures khz != 0 && pvTimeEnabled && (useMasterClock || old(hv.tscTimestamp) == 0) ==> lastKernelNs == kernelNs
      ensures khz != 0 && pvTimeEnabled && !useMasterClock && old(hv.tscTimestamp) != 0 ==>
                var seen := old(scale(lastGuestTsc - hv.tscTimestamp, hv.mul, hv.shift) + lastKernelNs);
                lastKernelNs == if seen > kernelNs then seen else kernelNs
      ensures FactorFor(hv, hwTscKhz)
      ensures khz != 0 && pvTimeEnabled && !useMasterClock && old(hv.tscTimestamp) != 0 ==>
                hv.systemTime >= old(At(scale, hv, lastGuestTsc))
      ensures !useMasterClock ==> Valid()
      ensures running == old(running) && (read, seen) == old((read, seen))
    {
      hide TimeScale.ErrorBound, TimeScale.Factor, Monotone, Grows;
      if khz == 0 { return 1; }
      var tscTimestamp := l1Tsc;
      if catchup > tscTimestamp {
        tscTimestamp := catchup;
      }
      now := tscTimestamp;
      if !pvTimeEnabled { return 0; }
      var maxKernelNs := MaxKernelNs(scale, hv, lastKernelNs, lastGuestTsc);
      if hwTscKhz != khz {
        var shift, mul := TimeScale.GetTimeScale(1000000, khz);
        hv := hv.(shift := shift, mul := mul);
        hwTscKhz := khz;
      }
      var ns := Clamped(maxKernelNs, kernelNs, useMasterClock);
      hv := hv.(tscTimestamp := tscTimestamp);
      hv := hv.(systemTime := ns + offset);
      lastKernelNs := ns;
      lastGuestTsc := tscTimestamp;
      version := version + 2;
      StartsAtZero(scale, hv.mul, hv.shift);
      r := 0;
    }

    /** The times that the guest reads over any run without a master clock and without TSC resets never decrease,
        whatever the host clock, the TSC rate and the updates do.  Events that cannot happen are skipped. */
    method Run(events: seq<Event>) returns (times: seq<int>)
      requires Valid() && !read
      modifies this
      ensures Valid()
      ensures hwTscKhz != 0 ==> TimeScale.ErrorBound(TimeScale.Factor(hv.mul, hv.shift), 1000000, hwTscKhz)
      ensures forall i, j :: 0 <= i < j < |times| ==> times[i] <= times[j]
    {
      times := [];
      var k := 0;
      while k < |events|
        invariant 0 <= k <= |events| && Valid() && (read <==> times != []) && (read ==> seen == times[|times| - 1])
        invariant forall i, j :: 0 <= i < j < |times| ==> times[i] <= times[j]
      {
        match events[k] {
          case Enter => if !running { Enter(); }
          case Exit(tsc) => if running && tsc >= now { Exit(tsc); }
          case Read(tsc) =>
            if running && tsc >= now && hv.tscTimestamp != 0 {
              var time := GuestRead(tsc);
              times := times + [time];
            }
          case Update(l1Tsc, kernelNs, khz, catchup, pvTimeEnabled) =>
            if !running && l1Tsc >= now && l1Tsc > 0 && khz < TimeScale.B32 {
              var r := GuestTimeUpdate(false, l1Tsc, kernelNs, khz, catchup, pvTimeEnabled);
            }
        }
        k := k + 1;
      }
    }
  }
}
