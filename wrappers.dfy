/** Optional values: Python's `None` next to a value. */
module Wrappers {

  datatype Option<+T> = None | Some(value: T)

  /** `m.get(k, 0)` for a dictionary of integers. */
  function Get<K>(m: map<K, int>, k: K): int
  {
    if k in m then m[k] else 0
  }

  /** `s[k]` / `df.iloc[k]` with Python's indexing: a negative `k` counts from the end; `None` where Python raises. */
  function PyAt<T>(s: seq<T>, k: int): (r: Option<T>)
    ensures r.Some? <==> -|s| <= k < |s|
    ensures 0 <= k < |s| ==> r == Some(s[k])
  {
    if 0 <= k < |s| then Some(s[k]) else if -|s| <= k < 0 then Some(s[|s| + k]) else None
  }
}
