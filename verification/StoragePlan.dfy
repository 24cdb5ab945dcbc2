/** Quota and reserve arithmetic of the history store
    (edge/pi-storage/storage_runtime.py, `compute_storage_plan`), over exact reals. */
module StoragePlans {
  import opened Collections

  datatype Mode = Normal | Degraded | Critical

  datatype StoreError =
    | BadTotal | BadFree | BadRequestedPercent | BadReservePercent | PercentSumTooLarge
    | RecordTooLarge | CapacityReserved | SegmentExists

  datatype StoragePlan = StoragePlan(
    totalBytes: int, freeBytes: int, quotaBytes: int, reserveBytes: int, mode: Mode)

  predicate PercentsAllowed(requested: real, reserve: real) {
    1.0 <= requested <= 80.0 && 5.0 <= reserve <= 30.0 && requested + reserve <= 90.0
  }

  function ComputeStoragePlan(total: int, free: int, requested: real, reserve: real)
    : (r: Result<StoragePlan, StoreError>)
    ensures r.Ok? <==> total > 0 && 0 <= free <= total && PercentsAllowed(requested, reserve)
  {
    if total <= 0 then Err(BadTotal)
    else if free < 0 || free > total then Err(BadFree)
    else if !(1.0 <= requested <= 80.0) then Err(BadRequestedPercent)
    else if !(5.0 <= reserve <= 30.0) then Err(BadReservePercent)
    else if requested + reserve > 90.0 then Err(PercentSumTooLarge)
    else
      var quotaBytes := (total as real * requested / 100.0).Floor;
      var reserveBytes := (total as real * reserve / 100.0).Floor;
      var freeRatio := free as real / total as real * 100.0;
      var mode := if freeRatio <= reserve then Critical
                  else if freeRatio <= reserve + 5.0 then Degraded
                  else Normal;
      Ok(StoragePlan(total, free, quotaBytes, reserveBytes, mode))
  }

  lemma RatioAbove(free: int, total: int, reserve: real)
    requires total > 0 && free as real > total as real * reserve / 100.0
    ensures free as real / total as real * 100.0 > reserve
  {
    var t, ratio := total as real, free as real / total as real;
    assert ratio * t == free as real;
    assert ratio * 100.0 <= reserve ==> ratio * 100.0 * t <= reserve * t;
  }

  /** Rounding down the reserve never hides a critical disk: a plan that leaves at
      least the (rounded) reserve after one more byte is not critical. */
  lemma RoomMeansNotCritical(total: int, free: int, requested: real, reserve: real, incoming: int)
    requires incoming >= 1
    requires var r := ComputeStoragePlan(total, free, requested, reserve);
             r.Ok? && r.value.freeBytes - incoming >= r.value.reserveBytes
    ensures ComputeStoragePlan(total, free, requested, reserve).value.mode != Critical
  {
    RatioAbove(free, total, reserve);
  }

  /** Quota and reserve never overlap: together they leave a tenth of the disk. */
  lemma QuotaAndReserveFit(total: int, free: int, requested: real, reserve: real)
    requires ComputeStoragePlan(total, free, requested, reserve).Ok?
    ensures var plan := ComputeStoragePlan(total, free, requested, reserve).value;
            0 <= plan.quotaBytes && 0 <= plan.reserveBytes &&
            10 * (plan.quotaBytes + plan.reserveBytes) <= 9 * total
  {
    var t := total as real;
    assert t * requested / 100.0 + t * reserve / 100.0 == t * (requested + reserve) / 100.0;
    assert t * (requested + reserve) <= t * 90.0;
    assert t * requested >= 0.0 && t * reserve >= 0.0;
  }
}
