/** The default key-to-bucket store (bucket.go: defaultStorage.GetOrCreate), read sequentially. */
module Storage {
  import opened Buckets

  type Store = map<string, Bucket>

  /** The bucket handed back to the caller and the store after the call. */
  datatype Got = Got(bucket: Bucket, store: Store)

  /** Get-or-create. `created` is the value the creator callback would produce; it is only
      used when the key is absent. Run sequentially, the re-check under the lock finds what
      the first lookup found, so one lookup models both. */
  function GetOrCreate(s: Store, key: string, created: Bucket): (r: Got)
    ensures key in r.store && r.store[key] == r.bucket
    ensures key in s ==> r.bucket == s[key] && r.store == s
    ensures key !in s ==> r.bucket == created
    ensures r.store.Keys == s.Keys + {key}
    ensures forall k :: k in s && k != key ==> r.store[k] == s[k]
  {
    if key in s then Got(s[key], s)
    else Got(created, s[key := created])
  }

  /** Calling again for the same key returns the bucket of the first call, ignores the
      creator, and leaves the store as the first call left it. */
  lemma GetOrCreateRepeatable(s: Store, key: string, created: Bucket, created': Bucket)
    ensures GetOrCreate(GetOrCreate(s, key, created).store, key, created')
         == GetOrCreate(s, key, created)
  {
  }

  /** Creating an entry for one key never changes what another key finds. */
  lemma GetOrCreateIsolated(s: Store, key: string, other: string, created: Bucket, created': Bucket)
    requires key != other
    ensures GetOrCreate(GetOrCreate(s, key, created).store, other, created').bucket
         == GetOrCreate(s, other, created').bucket
  {
  }
}
