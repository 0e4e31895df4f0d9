/**
 The memo store of the `proto-memo` variant: an array of records keyed by the
 exact page URL, with an upsert that rewrites the text of the first matching
 record in place or appends, and a lookup that answers `''` on a miss.

 The array is the field `memos` of the class `MemoStore`.
 */
module ProtoMemoStore {

  /** One stored note: the page URL and the text. */
  datatype Memo = Memo(url: string, text: string)

  /** No two records share a URL. */
  predicate DistinctUrls(memos: seq<Memo>)
  {
    forall i, j :: 0 <= i < j < |memos| ==> memos[i].url != memos[j].url
  }

  /** Some record carries `url`. */
  predicate HasUrl(memos: seq<Memo>, url: string)
  {
    exists i :: 0 <= i < |memos| && memos[i].url == url
  }

  /** `memos.findIndex(memo => memo.url === url)`: the first index with that URL,
      or -1 when there is none. */
  function FindIndex(memos: seq<Memo>, url: string): (r: int)
    ensures -1 <= r < |memos|
    ensures r == -1 <==> !HasUrl(memos, url)
    ensures r != -1 ==> memos[r].url == url && forall j :: 0 <= j < r ==> memos[j].url != url
  {
    if memos == [] then
      -1
    else if memos[0].url == url then
      0
    else
      var r := FindIndex(memos[1..], url);
      assert HasUrl(memos, url) ==> HasUrl(memos[1..], url) by {
        if HasUrl(memos, url) {
          var i :| 0 <= i < |memos| && memos[i].url == url;
          assert memos[1..][i - 1].url == url;
        }
      }
      if r == -1 then -1 else r + 1
  }

  /** `getMemo`: the text of the first record with `url`, or `''`. */
  function GetMemo(memos: seq<Memo>, url: string): (r: string)
    ensures !HasUrl(memos, url) ==> r == ""
    ensures HasUrl(memos, url) ==> r == memos[FindIndex(memos, url)].text
  {
    var i := FindIndex(memos, url);
    if i == -1 then "" else memos[i].text
  }

  /** The array after `saveMemo(url, text)`: the first record with `url` gets the
      new text in place, or a new record is appended. */
  function Saved(memos: seq<Memo>, url: string, text: string): (r: seq<Memo>)
    ensures HasUrl(memos, url) ==>
      var k := FindIndex(memos, url);
      && |r| == |memos|
      && r[k] == Memo(url, text)
      && forall j :: 0 <= j < |memos| && j != k ==> r[j] == memos[j]
    ensures !HasUrl(memos, url) ==> r == memos + [Memo(url, text)]
  {
    var k := FindIndex(memos, url);
    if k != -1 then memos[k := memos[k].(text := text)] else memos + [Memo(url, text)]
  }

  /** Records with another URL are neither moved nor changed, none is lost, and
      every position keeps its URL. */
  lemma SavedKeepsOthers(memos: seq<Memo>, url: string, text: string)
    ensures var r := Saved(memos, url, text);
      && |memos| <= |r| <= |memos| + 1
      && (forall j :: 0 <= j < |memos| ==> r[j].url == memos[j].url)
      && forall j :: 0 <= j < |memos| && memos[j].url != url ==> r[j] == memos[j]
  {
  }

  /** Saving keeps URLs distinct. */
  lemma SavePreservesDistinct(memos: seq<Memo>, url: string, text: string)
    requires DistinctUrls(memos)
    ensures DistinctUrls(Saved(memos, url, text))
  {
    var r := Saved(memos, url, text);
    if HasUrl(memos, url) {
      forall i, j | 0 <= i < j < |r| ensures r[i].url != r[j].url {
        assert r[i].url == memos[i].url && r[j].url == memos[j].url;
      }
    } else {
      forall i, j | 0 <= i < j < |r| ensures r[i].url != r[j].url {
        if j == |memos| {
          assert r[i] == memos[i];
        } else {
          assert r[i] == memos[i] && r[j] == memos[j];
        }
      }
    }
  }

  /** After `saveMemo(url, text)`, `getMemo(url)` returns `text`. */
  lemma GetAfterSave(memos: seq<Memo>, url: string, text: string)
    ensures GetMemo(Saved(memos, url, text), url) == text
  {
    var r := Saved(memos, url, text);
    if HasUrl(memos, url) {
      var k := FindIndex(memos, url);
      assert r[k].url == url;
      assert FindIndex(r, url) == k by {
        forall j | 0 <= j < k ensures r[j].url != url {
          assert r[j] == memos[j];
        }
      }
    } else {
      assert r[|memos|].url == url;
      assert FindIndex(r, url) == |memos| by {
        forall j | 0 <= j < |memos| ensures r[j].url != url {
          assert r[j] == memos[j];
        }
      }
    }
  }

  /** Saving under `url` leaves what `getMemo` returns for every other URL. */
  lemma GetOtherAfterSave(memos: seq<Memo>, url: string, text: string, other: string)
    requires other != url
    ensures GetMemo(Saved(memos, url, text), other) == GetMemo(memos, other)
  {
    var r := Saved(memos, url, text);
    assert forall j :: 0 <= j < |memos| ==> r[j].url == memos[j].url;
    if HasUrl(memos, other) {
      var k := FindIndex(memos, other);
      assert r[k] == memos[k];
      assert FindIndex(r, other) == k;
    } else {
      assert !HasUrl(r, other) by {
        forall j | 0 <= j < |r| ensures r[j].url != other {
          if j < |memos| {
            assert r[j].url == memos[j].url;
          }
        }
      }
    }
  }

  /** Saving the same text twice under a URL leaves what saving it once left. */
  lemma SaveSameTextIsIdempotent(memos: seq<Memo>, url: string, text: string)
    ensures Saved(Saved(memos, url, text), url, text) == Saved(memos, url, text)
  {
    var r := Saved(memos, url, text);
    GetAfterSave(memos, url, text);
    if HasUrl(memos, url) {
      assert r[FindIndex(memos, url)].url == url;
    } else {
      assert r[|memos|].url == url;
    }
    var k := FindIndex(r, url);
    assert k != -1 && r[k].text == text;
    assert r[k := r[k].(text := text)] == r;
  }

  class MemoStore {
    var memos: seq<Memo>

    /** `ref(loadMemos())`, with what was loaded as a parameter. */
    constructor (loaded: seq<Memo>)
      ensures memos == loaded
    {
      memos := loaded;
    }

    /** `saveMemo(url, text)`. */
    method SaveMemo(url: string, text: string)
      modifies this
      ensures memos == Saved(old(memos), url, text)
    {
      var existing := FindIndex(memos, url);
      if existing != -1 {
        memos := memos[existing := memos[existing].(text := text)];
      } else {
        memos := memos + [Memo(url, text)];
      }
    }
  }
}
