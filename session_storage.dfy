/** `addToSessionStorage` (extension.js:409-420): every item of a fetched
    manifest list is pushed, one at a time, onto the JSON list stored under
    the key `items.user + "-" + items.repo`. Session storage is a map from
    keys to the lists their JSON text encodes; `JSON.stringify` followed by
    `JSON.parse` is taken to give the list back unchanged. */
module SessionStorage {
  import opened Wrappers

  /** A manifest array together with the `user` and `repo` properties
      `fetchThemes`/`fetchExtensions` set on it. */
  datatype ItemList<T> = ItemList(items: seq<T>, user: string, repo: string)

  type Store<T> = map<string, seq<T>>

  /** The storage key of a repository: its user and repo joined by a dash (extension.js:413). */
  function BucketKey(user: string, repo: string): string
  {
    user + "-" + repo
  }

  /** What a key holds: its parsed list, or `[]` when `getItem` returns null. */
  function Stored<T>(store: Store<T>, key: string): seq<T>
  {
    if key in store then store[key] else []
  }

  /** The store after the call. A null list changes nothing, and so does an
      empty one: `forEach` never runs, so not even an empty bucket is written. */
  function Added<T>(store: Store<T>, list: Option<ItemList<T>>): (r: Store<T>)
  {
    if list.None? || |list.value.items| == 0 then store
    else
      var key := BucketKey(list.value.user, list.value.repo);
      store[key := Stored(store, key) + list.value.items]
  }

  /** The bucket of the list ends with its items in order, after what it held;
      every other key keeps its list, and no key is dropped. */
  lemma AddedAppends<T>(store: Store<T>, list: ItemList<T>)
    ensures var r := Added(store, Some(list)); var key := BucketKey(list.user, list.repo);
      && Stored(r, key) == Stored(store, key) + list.items
      && (forall k :: k in store ==> k in r)
      && (forall k :: k != key ==> Stored(r, k) == Stored(store, k))
  {
  }

  /** Nothing is ever overwritten: every bucket's old list is a prefix of its new one. */
  lemma AddedKeepsPrefix<T>(store: Store<T>, list: Option<ItemList<T>>, k: string)
    ensures Stored(store, k) <= Stored(Added(store, list), k)
  {
    if list.Some? && |list.value.items| > 0 && k == BucketKey(list.value.user, list.value.repo) {
      var old_, new_ := Stored(store, k), Stored(Added(store, list), k);
      assert new_ == old_ + list.value.items;
      assert new_[..|old_|] == old_;
    }
  }

  /** Two lists for the same bucket accumulate as one list of both in order. */
  lemma AddedTwice<T>(store: Store<T>, a: seq<T>, b: seq<T>, user: string, repo: string)
    ensures Added(Added(store, Some(ItemList(a, user, repo))), Some(ItemList(b, user, repo)))
      == Added(store, Some(ItemList(a + b, user, repo)))
  {
    var key := BucketKey(user, repo);
    if |a| == 0 {
      assert a + b == b;
    } else if |b| == 0 {
      assert a + b == a;
    } else {
      assert Stored(store, key) + a + b == Stored(store, key) + (a + b);
    }
  }

  /** The key joins user and repo with a dash that may also occur inside
      either, so distinct repositories can share a bucket. */
  lemma BucketKeysCollide()
    ensures BucketKey("a-b", "c") == BucketKey("a", "b-c")
  {
  }

  /** `window.sessionStorage`, holding parsed lists. */
  class SessionStore<T> {
    var store: Store<T>

    constructor (initial: Store<T>)
      ensures store == initial
    {
      store := initial;
    }

    /** One `items.forEach` turn after the other: read the bucket (or `[]`),
        push the item, write the bucket back. */
    method AddToSessionStorage(list: Option<ItemList<T>>)
      modifies this
      ensures store == Added(old(store), list)
    {
      if list.None? { return; }
      var items, key := list.value.items, BucketKey(list.value.user, list.value.repo);
      ghost var prior := Stored(store, key);
      for k := 0 to |items|
        invariant k == 0 ==> store == old(store)
        invariant k > 0 ==> store == old(store)[key := prior + items[..k]]
      {
        var existing := Stored(store, key);
        assert items[..0] == [] && prior + [] == prior;
        assert existing == prior + items[..k];
        var parsed := existing + [items[k]];
        assert items[..k + 1] == items[..k] + [items[k]];
        ghost var before := store;
        store := store[key := parsed];
        assert parsed == prior + items[..k + 1];
        assert store == old(store)[key := parsed] by {
          if k > 0 {
            assert before == old(store)[key := prior + items[..k]];
            assert store.Keys == old(store)[key := parsed].Keys;
          }
        }
      }
      assert items[..|items|] == items;
    }
  }
}
