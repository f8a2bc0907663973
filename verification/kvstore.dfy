/** The Redis commands the listener issues, over keys that carry an expiry.
    Every key the listener writes holds the value 1, so only the expiry
    instant is kept. */
module KvStore {

  /** Each present key mapped to the instant (unix seconds) at which it expires. */
  type Store = map<string, int>

  /** A key is live at `now` when it is present and has not yet expired;
      an expired key is indistinguishable from a missing one. */
  predicate Live(kv: Store, k: string, now: int)
  {
    k in kv && now < kv[k]
  }

  /** Two stores say the same about key `k`. */
  predicate Agree(kv1: Store, kv2: Store, k: string)
  {
    (k in kv1 <==> k in kv2) && (k in kv1 ==> kv1[k] == kv2[k])
  }

  /** `SET k 1 NX EX ttl`: creates `k` with a time to live unless it is live
      already, and reports whether it did. */
  function SetNx(kv: Store, k: string, ttl: nat, now: int): (r: (Store, bool))
    ensures r.1 <==> !Live(kv, k, now)
    ensures !r.1 ==> r.0 == kv
    ensures r.1 ==> forall t :: now <= t ==> (Live(r.0, k, t) <==> t < now + ttl)
    ensures forall j :: j != k ==> Agree(r.0, kv, j)
  {
    if Live(kv, k, now) then (kv, false) else (kv[k := now + ttl], true)
  }

  /** `SETEX k ttl 1`: (re)creates `k` with a time to live, unconditionally. */
  function SetEx(kv: Store, k: string, ttl: nat, now: int): (r: Store)
    ensures forall t :: now <= t ==> (Live(r, k, t) <==> t < now + ttl)
    ensures forall j :: j != k ==> Agree(r, kv, j)
  {
    kv[k := now + ttl]
  }

  /** `DEL k` */
  function Del(kv: Store, k: string): (r: Store)
    ensures k !in r
    ensures forall j :: j != k ==> Agree(r, kv, j)
  {
    kv - {k}
  }
}
