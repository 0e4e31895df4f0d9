/**
 The memo store of the `src` variant: an array of records keyed by a Twitter id,
 with an upsert that edits the first matching record in place or appends, a
 lookup that answers `''` on a miss, and an import that checks the shape of
 every element before overwriting the whole array.

 The array is the field `memos` of the class `MemoStore`; the saved date, which
 the program formats from the clock, is a parameter.
 */
module IdMemoStore {
  import opened Wrappers

  /** One stored note: the Twitter id, the text and the date it was saved. */
  datatype Memo = Memo(id: string, text: string, timestamp: string)

  /** No two records share an id. */
  predicate DistinctIds(memos: seq<Memo>)
  {
    forall i, j :: 0 <= i < j < |memos| ==> memos[i].id != memos[j].id
  }

  /** Some record carries `id`. */
  predicate HasId(memos: seq<Memo>, id: string)
  {
    exists i :: 0 <= i < |memos| && memos[i].id == id
  }

  /** `memos.findIndex(memo => memo.id === id)`: the first index with that id,
      or -1 when there is none. */
  function FindIndex(memos: seq<Memo>, id: string): (r: int)
    ensures -1 <= r < |memos|
    ensures r == -1 <==> !HasId(memos, id)
    ensures r != -1 ==> memos[r].id == id && forall j :: 0 <= j < r ==> memos[j].id != id
  {
    if memos == [] then
      -1
    else if memos[0].id == id then
      0
    else
      var r := FindIndex(memos[1..], id);
      assert HasId(memos, id) ==> HasId(memos[1..], id) by {
        if HasId(memos, id) {
          var i :| 0 <= i < |memos| && memos[i].id == id;
          assert memos[1..][i - 1].id == id;
        }
      }
      if r == -1 then -1 else r + 1
  }

  /** `getMemo`: the text of the first record with `id`, or `''`. */
  function GetMemo(memos: seq<Memo>, id: string): (r: string)
    ensures !HasId(memos, id) ==> r == ""
    ensures HasId(memos, id) ==> r == memos[FindIndex(memos, id)].text
  {
    var i := FindIndex(memos, id);
    if i == -1 then "" else memos[i].text
  }

  /** In a store with distinct ids, `getMemo` returns the text of the one record
      with that id, wherever it sits. */
  lemma GetMemoDistinct(memos: seq<Memo>, id: string, i: int)
    requires DistinctIds(memos)
    requires 0 <= i < |memos| && memos[i].id == id
    ensures GetMemo(memos, id) == memos[i].text
  {
    var k := FindIndex(memos, id);
    assert k != -1 && memos[k].id == id;
  }

  /** The array after `saveMemo(id, text)` dated `timestamp`: the first record with
      `id` gets the new text and date in place, or a new record is appended. */
  function Saved(memos: seq<Memo>, id: string, text: string, timestamp: string): (r: seq<Memo>)
    ensures HasId(memos, id) ==>
      var k := FindIndex(memos, id);
      && |r| == |memos|
      && r[k] == Memo(id, text, timestamp)
      && forall j :: 0 <= j < |memos| && j != k ==> r[j] == memos[j]
    ensures !HasId(memos, id) ==> r == memos + [Memo(id, text, timestamp)]
  {
    var k := FindIndex(memos, id);
    if k != -1 then memos[k := memos[k].(text := text, timestamp := timestamp)]
    else memos + [Memo(id, text, timestamp)]
  }

  /** Records with another id are neither moved nor changed, and none is lost. */
  lemma SavedKeepsOthers(memos: seq<Memo>, id: string, text: string, timestamp: string)
    ensures var r := Saved(memos, id, text, timestamp);
      && |memos| <= |r| <= |memos| + 1
      && forall j :: 0 <= j < |memos| && memos[j].id != id ==> r[j] == memos[j]
  {
  }

  /** Saving keeps ids distinct. */
  lemma SavePreservesDistinct(memos: seq<Memo>, id: string, text: string, timestamp: string)
    requires DistinctIds(memos)
    ensures DistinctIds(Saved(memos, id, text, timestamp))
  {
    var r := Saved(memos, id, text, timestamp);
    if HasId(memos, id) {
      var k := FindIndex(memos, id);
      forall i, j | 0 <= i < j < |r| ensures r[i].id != r[j].id {
        assert r[i].id == memos[i].id && r[j].id == memos[j].id;
      }
    } else {
      forall i, j | 0 <= i < j < |r| ensures r[i].id != r[j].id {
        if j == |memos| {
          assert r[i] == memos[i];
        } else {
          assert r[i] == memos[i] && r[j] == memos[j];
        }
      }
    }
  }

  /** After `saveMemo(id, text)`, `getMemo(id)` returns `text`. */
  lemma GetAfterSave(memos: seq<Memo>, id: string, text: string, timestamp: string)
    ensures GetMemo(Saved(memos, id, text, timestamp), id) == text
  {
    var r := Saved(memos, id, text, timestamp);
    if HasId(memos, id) {
      var k := FindIndex(memos, id);
      assert r[k].id == id;
      assert FindIndex(r, id) == k by {
        assert forall j :: 0 <= j < k ==> r[j].id != id by {
          forall j | 0 <= j < k ensures r[j].id != id {
            assert r[j] == memos[j];
          }
        }
      }
    } else {
      assert r[|memos|].id == id;
      assert FindIndex(r, id) == |memos| by {
        forall j | 0 <= j < |memos| ensures r[j].id != id {
          assert r[j] == memos[j];
        }
      }
    }
  }

  /** Saving under `id` leaves what `getMemo` returns for every other id. */
  lemma GetOtherAfterSave(memos: seq<Memo>, id: string, text: string, timestamp: string, other: string)
    requires other != id
    ensures GetMemo(Saved(memos, id, text, timestamp), other) == GetMemo(memos, other)
  {
    var r := Saved(memos, id, text, timestamp);
    assert forall j :: 0 <= j < |memos| ==> r[j].id == memos[j].id;
    if HasId(memos, other) {
      var k := FindIndex(memos, other);
      assert r[k] == memos[k];
      assert FindIndex(r, other) == k;
    } else {
      assert !HasId(r, other) by {
        forall j | 0 <= j < |r| ensures r[j].id != other {
          if j < |memos| {
            assert r[j].id == memos[j].id;
          }
        }
      }
    }
  }

  // ---------------------------------------------------------------------------
  // `importMemos`: the value handed in, already parsed.
  // ---------------------------------------------------------------------------

  /** One element of the imported value: something other than a non-null object,
      or an object with each of the three properties present (`Some`) or absent. */
  datatype Element =
    | NotAnObject
    | Object(id: Option<string>, text: Option<string>, timestamp: Option<string>)

  /** The imported value: not an array, or an array of elements. */
  datatype ImportValue = NotAnArray | AnArray(elements: seq<Element>)

  /** The check of `importMemos`: a non-null object with `id`, `text` and `timestamp`. */
  predicate IsMemoShaped(e: Element)
  {
    e.Object? && e.id.Some? && e.text.Some? && e.timestamp.Some?
  }

  /** The record an element that passed the check stands for. */
  function AsMemo(e: Element): (m: Memo)
    requires IsMemoShaped(e)
    ensures m.id == e.id.value && m.text == e.text.value && m.timestamp == e.timestamp.value
  {
    Memo(e.id.value, e.text.value, e.timestamp.value)
  }

  /** What `importMemos` stores: nothing on an input that fails the check,
      otherwise exactly the given records in the given order. */
  function Imported(input: ImportValue): (r: Option<seq<Memo>>)
    ensures r.Some? <==> input.AnArray? && forall i :: 0 <= i < |input.elements| ==> IsMemoShaped(input.elements[i])
    ensures r.Some? ==>
      && |r.value| == |input.elements|
      && forall i :: 0 <= i < |r.value| ==> r.value[i] == AsMemo(input.elements[i])
  {
    match input
    case NotAnArray => None
    case AnArray(es) =>
      if forall i :: 0 <= i < |es| ==> IsMemoShaped(es[i]) then
        Some(seq(|es|, i requires 0 <= i < |es| => AsMemo(es[i])))
      else
        None
  }

  /** A record as `JSON.stringify` then `JSON.parse` give it back. */
  function AsElement(m: Memo): Element
  {
    Object(Some(m.id), Some(m.text), Some(m.timestamp))
  }

  /** Importing the array `getAllMemos` returns gives back the same records. */
  lemma ImportOfExported(memos: seq<Memo>)
    ensures Imported(AnArray(seq(|memos|, i requires 0 <= i < |memos| => AsElement(memos[i])))) == Some(memos)
  {
    var es := seq(|memos|, i requires 0 <= i < |memos| => AsElement(memos[i]));
    assert forall i :: 0 <= i < |es| ==> IsMemoShaped(es[i]) && AsMemo(es[i]) == memos[i];
    var r := Imported(AnArray(es));
    assert r.Some?;
    assert r.value == memos;
  }

  /** One element without `timestamp` makes the whole import fail. */
  lemma ImportRejectsMissingTimestamp(elements: seq<Element>, i: int)
    requires 0 <= i < |elements| && elements[i].Object? && elements[i].timestamp.None?
    ensures Imported(AnArray(elements)).None?
  {
    assert !IsMemoShaped(elements[i]);
  }

  class MemoStore {
    var memos: seq<Memo>

    /** `ref(loadMemos())`, with what was loaded as a parameter. */
    constructor (loaded: seq<Memo>)
      ensures memos == loaded
    {
      memos := loaded;
    }

    /** `saveMemo(id, text)` with the formatted date as a parameter. */
    method SaveMemo(id: string, text: string, timestamp: string)
      modifies this
      ensures memos == Saved(old(memos), id, text, timestamp)
    {
      var existing := FindIndex(memos, id);
      if existing != -1 {
        memos := memos[existing := memos[existing].(text := text)];
        memos := memos[existing := memos[existing].(timestamp := timestamp)];
      } else {
        memos := memos + [Memo(id, text, timestamp)];
      }
    }

    /** `getAllMemos`: the current array, unchanged. */
    method GetAllMemos() returns (all: seq<Memo>)
      ensures all == memos
    {
      all := memos;
    }

    /** `importMemos`: overwrites the array with a well-shaped input and leaves it
        unchanged otherwise. `persisted` is whether the `saveMemos()` that follows
        the overwrite returned normally; when it throws, the `catch` answers false
        with the array already replaced. */
    method ImportMemos(input: ImportValue, persisted: bool) returns (ok: bool)
      modifies this
      ensures ok <==> Imported(input).Some? && persisted
      ensures Imported(input).Some? ==> memos == Imported(input).value
      ensures Imported(input).None? ==> memos == old(memos)
    {
      if !input.AnArray? || !(forall i :: 0 <= i < |input.elements| ==> IsMemoShaped(input.elements[i])) {
        return false;
      }
      memos := seq(|input.elements|, i requires 0 <= i < |input.elements| => AsMemo(input.elements[i]));
      if !persisted {
        return false;
      }
      return true;
    }
  }
}
