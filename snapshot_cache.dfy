/**
 The expiring snapshot cache over local storage: a save stamps the payload
 with the current time; a load returns the payload unless it is older than
 two years, in which case the stored key is removed and the fallback is
 returned. Storage is a map from key to what `JSON.parse` makes of the stored
 text; the clock is the parameter `now` (epoch milliseconds).
 */
module SnapshotCache {

  datatype Option<T> = None | Some(value: T)

  /** The freshness window: 2 * 365 * 24 * 60 * 60 * 1000 milliseconds. */
  const TwoYearsMs: int := 2 * 365 * 24 * 60 * 60 * 1000

  /** The one key under which the catalog snapshot is saved. */
  const StorageKey: string := "acquisitionTaxLaws"

  /** What is stored under a key, as parsed. */
  datatype Snapshot<T> =
    | Unparseable                                /* empty, not JSON, or JSON `null` */
    | Legacy(value: T)                           /* a bare payload from before stamping existed */
    | Envelope(data: T, timestamp: Option<int>)  /* `{data, timestamp}`; the stamp may be missing */

  type Store<T> = map<string, Snapshot<T>>

  /**
   A snapshot is expired when it carries a truthy (present, non-zero)
   timestamp and strictly more than two years have passed since it.
   */
  predicate IsExpired<T>(snap: Snapshot<T>, now: int) {
    snap.Envelope? && snap.timestamp.Some? && snap.timestamp.value != 0
    && now - snap.timestamp.value > TwoYearsMs
  }

  /**
   The value a load returns. It is always either the fallback or the payload
   stored under `key`: the fallback whenever nothing usable is stored, the
   whole value of a legacy snapshot, and the data of an unexpired envelope
   (with or without a stamp).
   */
  function LoadValue<T>(store: Store<T>, key: string, fallback: T, now: int): (r: T)
    ensures r == fallback
            || (key in store && !IsExpired(store[key], now)
                && (store[key] == Legacy(r) || (store[key].Envelope? && store[key].data == r)))
    ensures key !in store || store[key].Unparseable? || IsExpired(store[key], now) ==> r == fallback
    ensures key in store && store[key].Legacy? ==> r == store[key].value
    ensures key in store && store[key].Envelope? && !IsExpired(store[key], now) ==> r == store[key].data
  {
    if key !in store then fallback
    else
      match store[key]
      case Unparseable => fallback
      case Legacy(v) => v
      case Envelope(data, _) => if IsExpired(store[key], now) then fallback else data
  }

  /**
   The store after a load: the key is removed exactly when its snapshot has
   expired; every other key, and every unexpired snapshot, stays as it was.
   */
  function StoreAfterLoad<T>(store: Store<T>, key: string, now: int): (s: Store<T>)
    ensures key in store && IsExpired(store[key], now) ==> key !in s && s == store - {key}
    ensures !(key in store && IsExpired(store[key], now)) ==> s == store
    ensures forall k :: k != key ==> (k in s <==> k in store) && (k in s ==> s[k] == store[k])
  {
    if key in store && IsExpired(store[key], now) then store - {key} else store
  }

  /** The store after a save: the payload under `StorageKey`, stamped with `now`. */
  function StoreAfterSave<T>(store: Store<T>, data: T, now: int): (s: Store<T>)
    ensures StorageKey in s && s[StorageKey] == Envelope(data, Some(now))
    ensures forall k :: k != StorageKey ==> (k in s <==> k in store) && (k in s ==> s[k] == store[k])
  {
    store[StorageKey := Envelope(data, Some(now))]
  }

  /**
   Save, then load later: within two years (or with a zero stamp, which is
   never treated as expired) the load returns exactly what was saved and
   leaves the store alone; after strictly more than two years it returns the
   fallback and the key is gone.
   */
  lemma SaveThenLoad<T>(store: Store<T>, data: T, saved: int, fallback: T, later: int)
    ensures var s := StoreAfterSave(store, data, saved);
            (later - saved <= TwoYearsMs || saved == 0) ==>
              LoadValue(s, StorageKey, fallback, later) == data
              && StoreAfterLoad(s, StorageKey, later) == s
    ensures var s := StoreAfterSave(store, data, saved);
            (later - saved > TwoYearsMs && saved != 0) ==>
              LoadValue(s, StorageKey, fallback, later) == fallback
              && StorageKey !in StoreAfterLoad(s, StorageKey, later)
  {
  }

  /**
   The expiry boundary in milliseconds: exactly 63,072,000,000 ms after the
   stamp the snapshot is still fresh; one millisecond later it has expired.
   */
  lemma ExpiryBoundary<T>(data: T, saved: int)
    requires saved != 0
    ensures !IsExpired(Envelope(data, Some(saved)), saved + 63_072_000_000)
    ensures IsExpired(Envelope(data, Some(saved)), saved + 63_072_000_001)
  {
  }

  /**
   Loading twice at the same time gives the same value as loading once, and
   the second load changes nothing more: an expired key removed by the first
   load is simply absent for the second.
   */
  lemma LoadIdempotent<T>(store: Store<T>, key: string, fallback: T, now: int)
    ensures var s := StoreAfterLoad(store, key, now);
            LoadValue(s, key, fallback, now) == LoadValue(store, key, fallback, now)
            && StoreAfterLoad(s, key, now) == s
  {
  }

  /** Once expired, a snapshot stays expired at every later time. */
  lemma ExpiryIsPermanent<T>(snap: Snapshot<T>, now: int, later: int)
    requires IsExpired(snap, now) && now <= later
    ensures IsExpired(snap, later)
  {
  }
}
