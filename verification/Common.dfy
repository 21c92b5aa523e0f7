/** Definitions shared by every component. */
module Wrappers {
  datatype Option<+T> = None | Some(value: T)

  function Lookup<K, V>(m: map<K, V>, k: K): Option<V> {
    if k in m then Some(m[k]) else None
  }
}

/** Clock readings are integers counting nanoseconds. */
module Clock {
  function Seconds(n: int): int {
    n * 1_000_000_000
  }

  /** `duration_cast<seconds>(d).count()`: truncation toward zero. */
  function WholeSeconds(d: int): int {
    if d >= 0 then d / 1_000_000_000 else -((-d) / 1_000_000_000)
  }

  /** Comparing truncated seconds is comparing nanoseconds with the next whole second. */
  lemma WholeSecondsExceed(d: int, limit: int)
    requires d >= 0 || limit >= 0
    ensures WholeSeconds(d) > limit <==> d >= Seconds(limit + 1)
  {
  }
}
