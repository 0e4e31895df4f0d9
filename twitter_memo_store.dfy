/**
 The memo store of the twitter-memo variant: a map from memo id (the lower-cased
 handle) to a memo record, with upsert, lookup, delete, clear, whole-store import,
 a list sorted by last update, and search.

 The operations on the map itself are pure functions below; the class
 `MemoRepository` holds the map as mutable state, and each of its methods is
 proved to leave exactly the state those functions describe. The clock is a
 parameter (`now`), and so is what `JSON.parse` and the storage adapter return.
 */
module TwitterMemoStore {
  import opened Wrappers
  import opened Strings
  import opened MemoId

  /** One stored note. Timestamps are integers: ISO-8601 strings from
      `toISOString` order the same way as the instants they denote. */
  datatype MemoData = MemoData(
    id: string,
    twitterUrl: string,
    username: string,
    memo: string,
    createdAt: int,
    updatedAt: int)

  /** The store: memo id to memo record. */
  type Store = map<string, MemoData>

  /** What every record written through `SaveMemo` satisfies: it sits under its own,
      non-empty id, that id is its lower-cased username, and it was not updated
      before it was created. */
  ghost predicate Consistent(store: Store)
  {
    forall k :: k in store ==>
      && k != ""
      && store[k].id == k
      && ToLowerAscii(store[k].username) == k
      && store[k].createdAt <= store[k].updatedAt
  }

  // ---------------------------------------------------------------------------
  // Lookups (`getMemo`, `hasMemo`, `memoCount`): pure reads of the store.
  // ---------------------------------------------------------------------------

  /** `getMemo`: the record under the URL's id, or nothing. */
  function GetMemo(store: Store, twitterUrl: string): (r: Option<MemoData>)
    ensures r.Some? <==> GenerateMemoId(twitterUrl) in store
    ensures r.Some? ==> r.value == store[GenerateMemoId(twitterUrl)]
  {
    var id := GenerateMemoId(twitterUrl);
    if id in store then Some(store[id]) else None
  }

  /** `hasMemo`: whether a record is stored under the URL's id. */
  function HasMemo(store: Store, twitterUrl: string): (r: bool)
    ensures r <==> GetMemo(store, twitterUrl).Some?
  {
    GenerateMemoId(twitterUrl) in store
  }

  /** `memoCount`: the number of keys. */
  function MemoCount(store: Store): (n: nat)
    ensures n == 0 <==> store == map[]
  {
    |store|
  }

  // ---------------------------------------------------------------------------
  // Upsert (`saveMemo`).
  // ---------------------------------------------------------------------------

  /** The store after `saveMemo(twitterUrl, memoText)` at time `now`, or nothing
      when the call is rejected. */
  function Saved(store: Store, twitterUrl: string, memoText: string, now: int): (r: Option<Store>)
    ensures r.None? <==> ExtractUsernameFromUrl(twitterUrl) == ""
    ensures r.Some? ==>
      var id := GenerateMemoId(twitterUrl);
      && id != ""
      && r.value.Keys == store.Keys + {id}
      && r.value[id].id == id
      && r.value[id].twitterUrl == Trim(twitterUrl)
      && r.value[id].username == ExtractUsernameFromUrl(twitterUrl)
      && r.value[id].memo == Trim(memoText)
      && r.value[id].createdAt == (if id in store then store[id].createdAt else now)
      && r.value[id].updatedAt == now
  {
    var username := ExtractUsernameFromUrl(twitterUrl);
    var url := Trim(twitterUrl);
    UsernameImpliesUrlNotBlank(twitterUrl);
    if username == "" || url == "" then
      None
    else
      var id := GenerateMemoId(twitterUrl);
      var createdAt := if id in store then store[id].createdAt else now;
      var saved := store[id := MemoData(id, url, username, Trim(memoText), createdAt, now)];
      assert saved.Keys == store.Keys + {id};
      Some(saved)
  }

  /** A save leaves every record under another id as it was. */
  lemma SavedLeavesOthers(store: Store, twitterUrl: string, memoText: string, now: int)
    requires Saved(store, twitterUrl, memoText, now).Some?
    ensures forall k :: k in store && k != GenerateMemoId(twitterUrl) ==>
      Saved(store, twitterUrl, memoText, now).value[k] == store[k]
  {
    var id := GenerateMemoId(twitterUrl);
    var record := MemoData(id, Trim(twitterUrl), ExtractUsernameFromUrl(twitterUrl), Trim(memoText),
                           if id in store then store[id].createdAt else now, now);
    assert Saved(store, twitterUrl, memoText, now).value == store[id := record];
  }

  /** Saving with a clock that has not gone backwards keeps the store consistent. */
  lemma SavePreservesConsistent(store: Store, twitterUrl: string, memoText: string, now: int)
    requires Consistent(store)
    requires forall k :: k in store ==> store[k].updatedAt <= now
    requires Saved(store, twitterUrl, memoText, now).Some?
    ensures Consistent(Saved(store, twitterUrl, memoText, now).value)
  {
    var id := GenerateMemoId(twitterUrl);
    var r := Saved(store, twitterUrl, memoText, now).value;
    assert ToLowerAscii(r[id].username) == id;
    if id in store {
      assert r[id].createdAt == store[id].createdAt <= store[id].updatedAt <= now;
    }
  }

  /** After a save, `getMemo` on the same URL returns the saved record. */
  lemma GetAfterSave(store: Store, twitterUrl: string, memoText: string, now: int)
    requires Saved(store, twitterUrl, memoText, now).Some?
    ensures var s := Saved(store, twitterUrl, memoText, now).value;
      && GetMemo(s, twitterUrl).Some?
      && GetMemo(s, twitterUrl).value.memo == Trim(memoText)
      && GetMemo(s, twitterUrl).value.updatedAt == now
  {
  }

  /** A save leaves what `getMemo` returns for every URL with another id. */
  lemma GetOtherAfterSave(store: Store, twitterUrl: string, memoText: string, now: int, other: string)
    requires Saved(store, twitterUrl, memoText, now).Some?
    requires GenerateMemoId(other) != GenerateMemoId(twitterUrl)
    ensures GetMemo(Saved(store, twitterUrl, memoText, now).value, other) == GetMemo(store, other)
  {
  }

  /** Two saves through URLs with the same id leave one record: the second text,
      the second time as `updatedAt`, and the first save's `createdAt`. */
  lemma SaveTwiceSameId(store: Store, u1: string, u2: string, a: string, b: string, t1: int, t2: int)
    requires GenerateMemoId(u1) == GenerateMemoId(u2)
    requires Saved(store, u1, a, t1).Some?
    ensures var s1 := Saved(store, u1, a, t1).value;
      var id := GenerateMemoId(u1);
      && Saved(s1, u2, b, t2).Some?
      && Saved(s1, u2, b, t2).value.Keys == store.Keys + {id}
      && Saved(s1, u2, b, t2).value[id].memo == Trim(b)
      && Saved(s1, u2, b, t2).value[id].updatedAt == t2
      && Saved(s1, u2, b, t2).value[id].createdAt == (if id in store then store[id].createdAt else t1)
  {
    assert |ExtractUsernameFromUrl(u2)| == |GenerateMemoId(u2)| > 0;
  }

  /** URLs with the same id read the same record. */
  lemma GetSameId(store: Store, u1: string, u2: string)
    requires GenerateMemoId(u1) == GenerateMemoId(u2)
    ensures GetMemo(store, u1) == GetMemo(store, u2)
  {
  }

  /** Two URLs whose usernames differ only in case (`x.com/alice`, `twitter.com/ALICE`)
      saved one after the other on an empty store leave one record, holding the
      second text and the first save's time as `createdAt`, which both URLs read. */
  lemma UsernamesDifferingInCase(u1: string, u2: string, a: string, b: string, t1: int, t2: int)
    requires ExtractUsernameFromUrl(u1) != ""
    requires GenerateMemoId(u1) == GenerateMemoId(u2)
    ensures var s1 := Saved(map[], u1, a, t1);
      && s1.Some?
      && var s2 := Saved(s1.value, u2, b, t2);
      && s2.Some?
      && MemoCount(s2.value) == 1
      && GetMemo(s2.value, u1) == GetMemo(s2.value, u2)
      && GetMemo(s2.value, u1).Some?
      && GetMemo(s2.value, u1).value.memo == Trim(b)
      && GetMemo(s2.value, u1).value.createdAt == t1
  {
    SaveTwiceSameId(map[], u1, u2, a, b, t1, t2);
    var s2 := Saved(Saved(map[], u1, a, t1).value, u2, b, t2).value;
    GetSameId(s2, u1, u2);
  }

  // ---------------------------------------------------------------------------
  // `memoList`: the values, most recently updated first.
  // ---------------------------------------------------------------------------

  predicate SortedByUpdatedDesc(list: seq<MemoData>)
  {
    forall i, j :: 0 <= i < j < |list| ==> list[i].updatedAt >= list[j].updatedAt
  }

  /** Every record in `list` was updated at `t` or earlier. */
  predicate AllUpdatedAtMost(list: seq<MemoData>, t: int)
  {
    forall i :: 0 <= i < |list| ==> list[i].updatedAt <= t
  }

  /** Places `m` after every record updated at the same time or later. */
  function InsertByUpdated(list: seq<MemoData>, m: MemoData): (r: seq<MemoData>)
    ensures multiset(r) == multiset(list) + multiset{m}
  {
    if list == [] || list[0].updatedAt < m.updatedAt then
      [m] + list
    else
      assert list == [list[0]] + list[1..];
      [list[0]] + InsertByUpdated(list[1..], m)
  }

  /** Inserting a record no later than a bound keeps every record within it. */
  lemma InsertKeepsBound(list: seq<MemoData>, m: MemoData, t: int)
    requires AllUpdatedAtMost(list, t) && m.updatedAt <= t
    ensures AllUpdatedAtMost(InsertByUpdated(list, m), t)
  {
    var r := InsertByUpdated(list, m);
    forall i | 0 <= i < |r| ensures r[i].updatedAt <= t {
      assert r[i] in multiset(r);
      if r[i] != m {
        assert r[i] in multiset(list);
        var k :| 0 <= k < |list| && list[k] == r[i];
      }
    }
  }

  /** Inserting into a list sorted newest first keeps it sorted. */
  lemma {:induction false} InsertKeepsSorted(list: seq<MemoData>, m: MemoData)
    requires SortedByUpdatedDesc(list)
    ensures SortedByUpdatedDesc(InsertByUpdated(list, m))
    decreases |list|
  {
    if list == [] || list[0].updatedAt < m.updatedAt {
      assert AllUpdatedAtMost(list, m.updatedAt);
    } else {
      var rest := InsertByUpdated(list[1..], m);
      InsertKeepsSorted(list[1..], m);
      assert AllUpdatedAtMost(list[1..], list[0].updatedAt);
      InsertKeepsBound(list[1..], m, list[0].updatedAt);
      assert InsertByUpdated(list, m) == [list[0]] + rest;
    }
  }

  /** The values stored under `keys`, counted once per key. */
  ghost function ValuesOn(store: Store, keys: set<string>): multiset<MemoData>
    requires keys <= store.Keys
    decreases keys
  {
    if keys == {} then multiset{}
    else
      var k :| k in keys;
      multiset{store[k]} + ValuesOn(store, keys - {k})
  }

  /** `Object.values(store)`, as a multiset. */
  ghost function Values(store: Store): multiset<MemoData>
  {
    ValuesOn(store, store.Keys)
  }

  /** Any key may be taken out first. */
  lemma {:induction false} ValuesOnRemove(store: Store, keys: set<string>, k: string)
    requires keys <= store.Keys && k in keys
    ensures ValuesOn(store, keys) == multiset{store[k]} + ValuesOn(store, keys - {k})
    decreases keys
  {
    var j :| j in keys && ValuesOn(store, keys) == multiset{store[j]} + ValuesOn(store, keys - {j});
    if j != k {
      ValuesOnRemove(store, keys - {j}, k);
      ValuesOnRemove(store, keys - {k}, j);
      assert keys - {j} - {k} == keys - {k} - {j};
    }
  }

  /** The multiset holds exactly the values stored under `keys`, one per key. */
  lemma {:induction false} ValuesOnContents(store: Store, keys: set<string>)
    requires keys <= store.Keys
    ensures |ValuesOn(store, keys)| == |keys|
    ensures forall m :: m in ValuesOn(store, keys) <==> exists k :: k in keys && store[k] == m
    decreases keys
  {
    if keys != {} {
      var k :| k in keys;
      ValuesOnRemove(store, keys, k);
      ValuesOnContents(store, keys - {k});
      forall m | m in ValuesOn(store, keys) ensures exists k' :: k' in keys && store[k'] == m {
        if m != store[k] {
          var k' :| k' in keys - {k} && store[k'] == m;
        }
      }
      forall m | exists k' :: k' in keys && store[k'] == m ensures m in ValuesOn(store, keys) {
        var k' :| k' in keys && store[k'] == m;
        if k' != k {
          assert k' in keys - {k};
        }
      }
    }
  }

  /** In a list sorted newest first that enumerates the store, a record updated
      strictly later than every other one comes first. */
  lemma NewestIsFirst(store: Store, id: string, list: seq<MemoData>)
    requires id in store
    requires forall k :: k in store && k != id ==> store[k].updatedAt < store[id].updatedAt
    requires SortedByUpdatedDesc(list) && multiset(list) == Values(store)
    ensures list != [] && list[0] == store[id]
  {
    ValuesOnContents(store, store.Keys);
    assert store[id] in multiset(list);
    assert list[0] in multiset(list);
    var k :| k in store && store[k] == list[0];
    var i :| 0 <= i < |list| && list[i] == store[id];
    assert list[0].updatedAt >= list[i].updatedAt;
  }

  /** Saving at a time later than every stored update puts the saved record at the
      head of `memoList`. */
  lemma SavedComesFirst(store: Store, twitterUrl: string, memoText: string, now: int, list: seq<MemoData>)
    requires forall k :: k in store ==> store[k].updatedAt < now
    requires Saved(store, twitterUrl, memoText, now).Some?
    requires SortedByUpdatedDesc(list) && multiset(list) == Values(Saved(store, twitterUrl, memoText, now).value)
    ensures list != [] && list[0] == Saved(store, twitterUrl, memoText, now).value[GenerateMemoId(twitterUrl)]
  {
    NewestIsFirst(Saved(store, twitterUrl, memoText, now).value, GenerateMemoId(twitterUrl), list);
  }

  // ---------------------------------------------------------------------------
  // `searchMemos`.
  // ---------------------------------------------------------------------------

  /** `query.toLowerCase().trim()`. */
  function SearchTerm(query: string): string
  {
    Trim(ToLowerAscii(query))
  }

  /** The record's username or memo, lower-cased, contains `term`. */
  predicate MatchesTerm(m: MemoData, term: string)
  {
    Contains(ToLowerAscii(m.username), term) || Contains(ToLowerAscii(m.memo), term)
  }

  /** `a` is `b` with some elements left out, the rest in their order. */
  predicate IsSubsequence<T(==)>(a: seq<T>, b: seq<T>)
    decreases |b|
  {
    if a == [] then true
    else if b == [] then false
    else if a[0] == b[0] then IsSubsequence(a[1..], b[1..])
    else IsSubsequence(a, b[1..])
  }

  /** The records of `list` that match `term`, in their order. */
  function FilterMatching(list: seq<MemoData>, term: string): (r: seq<MemoData>)
    ensures IsSubsequence(r, list)
    ensures forall m :: multiset(r)[m] == if MatchesTerm(m, term) then multiset(list)[m] else 0
  {
    if list == [] then []
    else
      var rest := FilterMatching(list[1..], term);
      assert list == [list[0]] + list[1..];
      if MatchesTerm(list[0], term) then
        [list[0]] + rest
      else
        assert rest == [] || rest[0] != list[0] by {
          if rest != [] { assert rest[0] in multiset(rest); }
        }
        rest
  }

  /** `searchMemos(query)` over the current `memoList`. */
  function SearchMemos(memoList: seq<MemoData>, query: string): (r: seq<MemoData>)
    ensures SearchTerm(query) == "" ==> r == memoList
    ensures SearchTerm(query) != "" ==>
      && IsSubsequence(r, memoList)
      && forall m :: multiset(r)[m] == if MatchesTerm(m, SearchTerm(query)) then multiset(memoList)[m] else 0
  {
    var term := SearchTerm(query);
    if term == "" then memoList else FilterMatching(memoList, term)
  }

  /** A search keeps the newest-first order of `memoList`. */
  lemma {:induction false} SubsequenceKeepsSorted(a: seq<MemoData>, b: seq<MemoData>)
    requires IsSubsequence(a, b) && SortedByUpdatedDesc(b)
    ensures SortedByUpdatedDesc(a)
    decreases |b|
  {
    if a != [] && b != [] {
      if a[0] == b[0] {
        SubsequenceKeepsSorted(a[1..], b[1..]);
        SubsequenceElements(a[1..], b[1..]);
        forall j | 0 < j < |a| ensures a[0].updatedAt >= a[j].updatedAt {
          assert a[j] == a[1..][j - 1];
          assert a[j] in b[1..];
          var k :| 0 <= k < |b| - 1 && b[1..][k] == a[j];
          assert b[0].updatedAt >= b[k + 1].updatedAt;
        }
      } else {
        SubsequenceKeepsSorted(a, b[1..]);
      }
    }
  }

  lemma {:induction false} SubsequenceElements<T>(a: seq<T>, b: seq<T>)
    requires IsSubsequence(a, b)
    ensures forall x :: x in a ==> x in b
    decreases |b|
  {
    if a != [] && b != [] {
      if a[0] == b[0] {
        SubsequenceElements(a[1..], b[1..]);
        assert a == [a[0]] + a[1..];
      } else {
        SubsequenceElements(a, b[1..]);
      }
    }
  }

  /** Search results come newest first, like `memoList`. */
  lemma SearchResultsSorted(memoList: seq<MemoData>, query: string)
    requires SortedByUpdatedDesc(memoList)
    ensures SortedByUpdatedDesc(SearchMemos(memoList, query))
  {
    if SearchTerm(query) != "" {
      SubsequenceKeepsSorted(SearchMemos(memoList, query), memoList);
    }
  }

  // ---------------------------------------------------------------------------
  // `importData`: the value `JSON.parse` produced replaces the store.
  // ---------------------------------------------------------------------------

  /** A parsed JSON value; entries of arrays and objects are taken to have the
      record's shape. */
  datatype Json =
    | JNull
    | JBool(b: bool)
    | JNumber(n: int)
    | JString(str: string)
    | JArray(items: seq<MemoData>)
    | JObject(members: Store)

  /** `typeof v === 'object' && v !== null`: objects and arrays. */
  predicate IsObject(v: Json)
  {
    v.JArray? || v.JObject?
  }

  function DigitChar(d: nat): (c: char)
    requires d < 10
    ensures '0' <= c <= '9'
  {
    ('0' as int + d) as char
  }

  /** The decimal spelling of `n`, the property key of index `n` in an array. */
  function DecimalString(n: nat): (r: string)
    ensures r != []
    ensures forall k :: 0 <= k < |r| ==> '0' <= r[k] <= '9'
  {
    if n < 10 then [DigitChar(n)] else DecimalString(n / 10) + [DigitChar(n % 10)]
  }

  function DecimalValue(s: string): nat
    requires forall k :: 0 <= k < |s| ==> '0' <= s[k] <= '9'
  {
    if s == [] then 0 else DecimalValue(s[..|s| - 1]) * 10 + (s[|s| - 1] as int - '0' as int)
  }

  lemma {:induction false} DecimalRoundTrip(n: nat)
    ensures DecimalValue(DecimalString(n)) == n
  {
    if n >= 10 {
      DecimalRoundTrip(n / 10);
      var s := DecimalString(n);
      assert s[..|s| - 1] == DecimalString(n / 10);
    }
  }

  /** Distinct indices have distinct keys. */
  lemma DecimalStringInjective(i: nat, j: nat)
    ensures DecimalString(i) == DecimalString(j) ==> i == j
  {
    DecimalRoundTrip(i);
    DecimalRoundTrip(j);
  }

  /** An array seen as an object: index keys `"0"`, `"1"`, ... to its items. */
  function ArrayAsStore(items: seq<MemoData>): Store
    decreases |items|
  {
    if items == [] then map[]
    else ArrayAsStore(items[..|items| - 1])[DecimalString(|items| - 1) := items[|items| - 1]]
  }

  /** `k` is the key of one of the first `n` indices. */
  predicate IsIndexKey(k: string, n: int)
  {
    exists i :: 0 <= i < n && k == DecimalString(i)
  }

  /** The keys of an array's object view are its index keys ... */
  lemma {:induction false} ArrayAsStoreKeys(items: seq<MemoData>)
    ensures forall k :: k in ArrayAsStore(items) ==> IsIndexKey(k, |items|)
    decreases |items|
  {
    if items != [] {
      var n := |items| - 1;
      ArrayAsStoreKeys(items[..n]);
      assert ArrayAsStore(items) == ArrayAsStore(items[..n])[DecimalString(n) := items[n]];
      forall k | k in ArrayAsStore(items) ensures IsIndexKey(k, |items|) {
        if k != DecimalString(n) {
          assert IsIndexKey(k, n);
          var i :| 0 <= i < n && k == DecimalString(i);
        }
      }
    }
  }

  /** ... each index key leads to its item ... */
  lemma {:induction false} ArrayAsStoreLookup(items: seq<MemoData>)
    ensures forall i :: 0 <= i < |items| ==>
      DecimalString(i) in ArrayAsStore(items) && ArrayAsStore(items)[DecimalString(i)] == items[i]
    decreases |items|
  {
    if items != [] {
      var n := |items| - 1;
      ArrayAsStoreLookup(items[..n]);
      forall i | 0 <= i < n ensures ArrayAsStore(items)[DecimalString(i)] == items[i] {
        DecimalStringInjective(i, n);
        assert items[..n][i] == items[i];
      }
    }
  }

  /** ... and there are as many keys as items. */
  lemma {:induction false} ArrayAsStoreSize(items: seq<MemoData>)
    ensures |ArrayAsStore(items)| == |items|
    decreases |items|
  {
    if items != [] {
      var n := |items| - 1;
      ArrayAsStoreSize(items[..n]);
      ArrayAsStoreKeys(items[..n]);
      forall i | 0 <= i < n ensures DecimalString(i) != DecimalString(n) {
        DecimalStringInjective(i, n);
      }
      assert !IsIndexKey(DecimalString(n), n);
    }
  }

  /** The store an accepted import leaves, or nothing when `importData` returns false
      (`None` stands for a `JSON.parse` failure). */
  function Imported(parsed: Option<Json>): (r: Option<Store>)
    ensures r.Some? <==> parsed.Some? && IsObject(parsed.value)
    ensures r.Some? && parsed.value.JObject? ==> r.value == parsed.value.members
    ensures r.Some? && parsed.value.JArray? ==> r.value == ArrayAsStore(parsed.value.items)
    ensures r.Some? && parsed.value.JArray? ==> MemoCount(r.value) == |parsed.value.items|
  {
    match parsed
    case None => None
    case Some(JObject(members)) => Some(members)
    case Some(JArray(items)) =>
      ArrayAsStoreSize(items);
      Some(ArrayAsStore(items))
    case Some(_) => None
  }

  // ---------------------------------------------------------------------------
  // The repository: the store as mutable state.
  // ---------------------------------------------------------------------------

  class MemoRepository {
    var store: Store

    /** `ref(LocalStorageAdapter.load())`, with what the adapter loaded as a parameter. */
    constructor (loaded: Store)
      ensures store == loaded
    {
      store := loaded;
    }

    /** `saveMemo`: rejects a URL without a username; otherwise writes the record,
        keeping `createdAt` of an existing one. */
    method SaveMemo(twitterUrl: string, memoText: string, now: int) returns (ok: bool)
      modifies this
      ensures ok <==> ExtractUsernameFromUrl(twitterUrl) != ""
      ensures ok ==> store == Saved(old(store), twitterUrl, memoText, now).value
      ensures !ok ==> store == old(store)
    {
      UsernameImpliesUrlNotBlank(twitterUrl);
      var username := ExtractUsernameFromUrl(twitterUrl);
      var url := Trim(twitterUrl);
      if username == "" || url == "" {
        return false;
      }
      var id := GenerateMemoId(twitterUrl);
      var isUpdate := id in store;
      var createdAt := if isUpdate then store[id].createdAt else now;
      ghost var expected := Saved(store, twitterUrl, memoText, now);
      assert expected == Some(store[id := MemoData(id, url, username, Trim(memoText), createdAt, now)]);
      store := store[id := MemoData(id, url, username, Trim(memoText), createdAt, now)];
      return true;
    }

    /** `deleteMemo`: removes the URL's id when present and says whether it was. */
    method DeleteMemo(twitterUrl: string) returns (ok: bool)
      modifies this
      ensures ok <==> GenerateMemoId(twitterUrl) in old(store)
      ensures ok ==> store == old(store) - {GenerateMemoId(twitterUrl)}
      ensures !ok ==> store == old(store)
    {
      var id := GenerateMemoId(twitterUrl);
      if id in store {
        store := store - {id};
        return true;
      }
      return false;
    }

    /** `clearAllMemos`: empties the store and returns what clearing storage returned. */
    method ClearAllMemos(storageCleared: bool) returns (ok: bool)
      modifies this
      ensures store == map[]
      ensures ok == storageCleared
    {
      store := map[];
      return storageCleared;
    }

    /** `importData`: replaces the whole store with an object or array, and rejects
        anything else without touching the store. */
    method ImportData(parsed: Option<Json>) returns (ok: bool)
      modifies this
      ensures ok <==> parsed.Some? && IsObject(parsed.value)
      ensures ok ==> store == Imported(parsed).value
      ensures !ok ==> store == old(store)
    {
      if parsed.Some? && IsObject(parsed.value) {
        store := Imported(parsed).value;
        return true;
      }
      return false;
    }

    /** `memoList`: every stored record once, most recently updated first. */
    method MemoList() returns (list: seq<MemoData>)
      ensures SortedByUpdatedDesc(list)
      ensures multiset(list) == Values(store)
      ensures |list| == MemoCount(store)
    {
      list := [];
      var rest := store.Keys;
      while rest != {}
        invariant rest <= store.Keys
        invariant SortedByUpdatedDesc(list)
        invariant multiset(list) + ValuesOn(store, rest) == Values(store)
        decreases rest
      {
        var k :| k in rest;
        ValuesOnRemove(store, rest, k);
        InsertKeepsSorted(list, store[k]);
        list := InsertByUpdated(list, store[k]);
        rest := rest - {k};
      }
      ValuesOnContents(store, store.Keys);
    }
  }

  /** Deleting right after the first save of an id restores the store. */
  lemma DeleteUndoesFirstSave(store: Store, twitterUrl: string, memoText: string, now: int)
    requires GenerateMemoId(twitterUrl) !in store
    requires Saved(store, twitterUrl, memoText, now).Some?
    ensures Saved(store, twitterUrl, memoText, now).value - {GenerateMemoId(twitterUrl)} == store
  {
  }

  // ---------------------------------------------------------------------------
  // `id in store.value` as written: the JavaScript `in` operator also sees the
  // properties a plain object inherits from `Object.prototype`.
  // ---------------------------------------------------------------------------

  /** The property names every plain object inherits from `Object.prototype`. */
  const InheritedNames: set<string> := {
    "constructor", "__proto__", "hasOwnProperty", "isPrototypeOf",
    "propertyIsEnumerable", "toString", "toLocaleString", "valueOf",
    "__defineGetter__", "__defineSetter__", "__lookupGetter__", "__lookupSetter__"
  }

  /** `id in store.value` on a plain object: an own key or an inherited name. */
  predicate InAsWritten(store: Store, id: string)
  {
    id in store || id in InheritedNames
  }

  /** `hasMemo` as written, with the inherited names included. */
  function HasMemoAsWritten(store: Store, twitterUrl: string): (r: bool)
    ensures HasMemo(store, twitterUrl) ==> r
    ensures GenerateMemoId(twitterUrl) in InheritedNames ==> r
    ensures r && !HasMemo(store, twitterUrl) ==> GenerateMemoId(twitterUrl) in InheritedNames
  {
    InAsWritten(store, GenerateMemoId(twitterUrl))
  }

  /** What `store.value[id] || null` reads as written: an own record, an inherited
      member of `Object.prototype` (a function, or the prototype object itself for
      `__proto__`, both truthy, so `|| null` keeps them), or `null`. */
  datatype Lookup = OwnRecord(record: MemoData) | InheritedMember(name: string) | Null

  /** `getMemo` as written: a property read, which follows the prototype chain. */
  function GetMemoAsWritten(store: Store, twitterUrl: string): (r: Lookup)
    ensures r.OwnRecord? <==> GetMemo(store, twitterUrl).Some?
    ensures r.OwnRecord? ==> r.record == GetMemo(store, twitterUrl).value
    ensures r.InheritedMember? <==> HasMemoAsWritten(store, twitterUrl) && !HasMemo(store, twitterUrl)
    ensures r.Null? <==> !HasMemoAsWritten(store, twitterUrl)
  {
    var id := GenerateMemoId(twitterUrl);
    if id in store then OwnRecord(store[id])
    else if id in InheritedNames then InheritedMember(id)
    else Null
  }

  /** `deleteMemo` as written: the answer is the `in` test, and `delete` of a name
      that is only inherited removes nothing. */
  function DeletedAsWritten(store: Store, twitterUrl: string): (r: (bool, Store))
    ensures r.0 <==> HasMemoAsWritten(store, twitterUrl)
    ensures HasMemo(store, twitterUrl) ==> r.1 == store - {GenerateMemoId(twitterUrl)}
    ensures !HasMemo(store, twitterUrl) ==> r.1 == store
  {
    var id := GenerateMemoId(twitterUrl);
    if InAsWritten(store, id) then (true, store - {id}) else (false, store)
  }

  /** The `createdAt` that `saveMemo` writes as written, `None` standing for
      `undefined`: `isUpdate` is the `in` test, so a name that is only inherited
      reads `createdAt` off the inherited member, which has none. */
  function CreatedAtAsWritten(store: Store, twitterUrl: string, now: int): (r: Option<int>)
    ensures HasMemo(store, twitterUrl) ==> r == Some(store[GenerateMemoId(twitterUrl)].createdAt)
    ensures HasMemoAsWritten(store, twitterUrl) && !HasMemo(store, twitterUrl) ==> r.None?
    ensures !HasMemoAsWritten(store, twitterUrl) ==> r == Some(now)
  {
    var id := GenerateMemoId(twitterUrl);
    if id in store then Some(store[id].createdAt)
    else if id in InheritedNames then None
    else Some(now)
  }

  /** A handle whose lower-cased form is an inherited name, on an empty store: as
      written, `hasMemo` reports a memo, `getMemo` returns the inherited member,
      `deleteMemo` answers true and the first save writes an undefined `createdAt`;
      with the own-key test there is no memo, nothing to delete, and the first save
      is created at `now`. */
  lemma InheritedHandleSeenOnEmptyStore(handle: string, now: int)
    requires IsHandle(handle) && ToLowerAscii(handle) in InheritedNames
    ensures HasMemoAsWritten(map[], XProfileUrl(handle))
    ensures GetMemoAsWritten(map[], XProfileUrl(handle)) == InheritedMember(ToLowerAscii(handle))
    ensures DeletedAsWritten(map[], XProfileUrl(handle)).0
    ensures CreatedAtAsWritten(map[], XProfileUrl(handle), now).None?
    ensures !HasMemo(map[], XProfileUrl(handle))
    ensures GetMemo(map[], XProfileUrl(handle)).None?
    ensures Saved(map[], XProfileUrl(handle), "", now).Some?
    ensures Saved(map[], XProfileUrl(handle), "", now).value[ToLowerAscii(handle)].createdAt == now
  {
    MemoIdOfXProfileUrl(handle);
  }

  /** `constructor` is such a handle. */
  lemma ConstructorIsInheritedHandle()
    ensures IsHandle("constructor") && ToLowerAscii("constructor") in InheritedNames
  {
    assert ToLowerAscii("constructor") == "constructor";
  }
}
