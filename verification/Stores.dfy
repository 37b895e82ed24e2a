/** Key-value stores, and branches of them seen as overlays of pending writes. */
module Stores {
  import opened Wrappers

  /** Bytes that the model does not look into. */
  type Blob = string
  type Store = map<Blob, Blob>

  /** Pending writes of a branch: `Some(v)` sets a key, `None` deletes it. */
  type Writes = map<Blob, Option<Blob>>

  /** What a reader of the branch sees: the parent, with the pending writes on top. */
  function Overlay(s: Store, w: Writes): Store
  {
    map k | k in s.Keys + w.Keys && (k in w ==> w[k].Some?) :: if k in w then w[k].value else s[k]
  }

  /** An unwritten branch shows its parent. */
  lemma OverlayNothing(s: Store)
    ensures Overlay(s, map[]) == s
  {
  }

  /** Writing branch `v` into branch `w` and then into `s` is writing both, later writes winning. */
  lemma OverlayTwice(s: Store, w: Writes, v: Writes)
    ensures Overlay(Overlay(s, w), v) == Overlay(s, w + v)
  {
  }
}
