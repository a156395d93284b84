/** The note records kept under the `notes` key of the browser's key-value
    store, and the list transforms the editor applies to that array:
    `map` on save, `filter` on delete, `find` on edit and `reverse` on load. */
module Notes {

  import Text

  /** A clock reading in milliseconds; it stands for the ISO string that
      `new Date().toISOString()` produces. */
  type Time = int

  datatype Option<T> = None | Some(value: T)

  /** One stored record. `date` is the creation time as the editor writes it,
      `updatedAt` the time of the latest save. */
  datatype Note = Note(id: int, text: string, date: Time, updatedAt: Time)

  /** Some note of ns has the given id. */
  ghost predicate HasId(ns: seq<Note>, id: int)
  {
    exists k :: 0 <= k < |ns| && ns[k].id == id
  }

  /** `notes.map(n => n.id === id ? rec : n)`: every note with the id is
      replaced by rec, every other note stays where it is. */
  function ReplaceById(ns: seq<Note>, id: int, rec: Note): (r: seq<Note>)
    ensures |r| == |ns|
    ensures forall k :: 0 <= k < |ns| ==> r[k] == if ns[k].id == id then rec else ns[k]
  {
    if ns == [] then []
    else [if ns[0].id == id then rec else ns[0]] + ReplaceById(ns[1..], id, rec)
  }

  /** When no note carries the id, the map returns the list it was given. */
  lemma ReplaceByIdAbsent(ns: seq<Note>, id: int, rec: Note)
    requires !HasId(ns, id)
    ensures ReplaceById(ns, id, rec) == ns
  {
    var r := ReplaceById(ns, id, rec);
    forall k | 0 <= k < |ns| ensures r[k] == ns[k] {
      assert ns[k].id != id;
    }
  }

  /** `notes.filter(note => note.id !== id)`. */
  function RemoveById(ns: seq<Note>, id: int): (r: seq<Note>)
  {
    if ns == [] then []
    else (if ns[0].id == id then [] else [ns[0]]) + RemoveById(ns[1..], id)
  }

  /** The filter keeps each note without the id, as often as it occurs, and
      drops every note with the id. */
  lemma {:induction false} RemoveByIdCounts(ns: seq<Note>, id: int)
    ensures forall n :: multiset(RemoveById(ns, id))[n] == if n.id == id then 0 else multiset(ns)[n]
  {
    if ns != [] {
      RemoveByIdCounts(ns[1..], id);
      assert ns == [ns[0]] + ns[1..];
    }
  }

  /** No note with the id survives the filter, and every survivor was in the list. */
  lemma RemoveByIdMembers(ns: seq<Note>, id: int)
    ensures !HasId(RemoveById(ns, id), id)
    ensures forall n :: n in RemoveById(ns, id) <==> n in ns && n.id != id
  {
    RemoveByIdCounts(ns, id);
    var r := RemoveById(ns, id);
    forall n ensures n in r <==> n in ns && n.id != id {
      assert n in r <==> multiset(r)[n] > 0;
      assert n in ns <==> multiset(ns)[n] > 0;
    }
    forall k | 0 <= k < |r| ensures r[k].id != id {
      assert r[k] in r;
    }
  }

  /** The filter works element by element, so the notes it keeps stay in
      their original relative order. */
  lemma {:induction false} RemoveByIdAppend(a: seq<Note>, b: seq<Note>, id: int)
    ensures RemoveById(a + b, id) == RemoveById(a, id) + RemoveById(b, id)
  {
    if a != [] {
      assert (a + b)[0] == a[0] && (a + b)[1..] == a[1..] + b;
      RemoveByIdAppend(a[1..], b, id);
      var head := if a[0].id == id then [] else [a[0]];
      calc {
        RemoveById(a + b, id);
        head + RemoveById(a[1..] + b, id);
        head + (RemoveById(a[1..], id) + RemoveById(b, id));
        (head + RemoveById(a[1..], id)) + RemoveById(b, id);
      }
    } else {
      assert a + b == b;
    }
  }

  /** A list without the id passes through the filter unchanged. */
  lemma {:induction false} RemoveByIdAbsent(ns: seq<Note>, id: int)
    requires !HasId(ns, id)
    ensures RemoveById(ns, id) == ns
  {
    if ns != [] {
      assert ns[0].id != id;
      assert !HasId(ns[1..], id) by {
        forall k | 0 <= k < |ns[1..]| ensures ns[1..][k].id != id {
          assert ns[1..][k] == ns[k + 1];
        }
      }
      RemoveByIdAbsent(ns[1..], id);
    }
  }

  /** Filtering twice by the same id is filtering once. */
  lemma RemoveByIdIdempotent(ns: seq<Note>, id: int)
    ensures RemoveById(RemoveById(ns, id), id) == RemoveById(ns, id)
  {
    RemoveByIdMembers(ns, id);
    RemoveByIdAbsent(RemoveById(ns, id), id);
  }

  /** `notes.find(n => n.id === id)`: the first note with the id, or None
      (JavaScript's `undefined`) when there is none. */
  function FindById(ns: seq<Note>, id: int): (r: Option<Note>)
    ensures r.Some? <==> HasId(ns, id)
    ensures r.Some? ==> exists k :: 0 <= k < |ns| && ns[k] == r.value && r.value.id == id
                                    && forall j :: 0 <= j < k ==> ns[j].id != id
  {
    if ns == [] then None
    else if ns[0].id == id then Some(ns[0])
    else
      var r := FindById(ns[1..], id);
      assert HasId(ns[1..], id) ==> HasId(ns, id) by {
        if HasId(ns[1..], id) {
          var k :| 0 <= k < |ns[1..]| && ns[1..][k].id == id;
          assert ns[k + 1].id == id;
        }
      }
      assert r.Some? ==> exists k :: 0 <= k < |ns| && ns[k] == r.value && r.value.id == id
                                     && forall j :: 0 <= j < k ==> ns[j].id != id by {
        if r.Some? {
          var k :| 0 <= k < |ns[1..]| && ns[1..][k] == r.value && r.value.id == id
                   && forall j :: 0 <= j < k ==> ns[1..][j].id != id;
          assert ns[k + 1] == r.value;
          forall j | 0 <= j < k + 1 ensures ns[j].id != id {
            if j > 0 { assert ns[j] == ns[1..][j - 1]; }
          }
        }
      }
      r
  }

  /** The array after `notes.reverse()`. */
  function Reversed(ns: seq<Note>): (r: seq<Note>)
  {
    if ns == [] then [] else Reversed(ns[1..]) + [ns[0]]
  }

  /** Position k of the reversed list holds the note at position |ns| - 1 - k. */
  lemma {:induction false} ReversedAt(ns: seq<Note>, k: int)
    requires 0 <= k < |ns|
    ensures |Reversed(ns)| == |ns|
    ensures Reversed(ns)[k] == ns[|ns| - 1 - k]
  {
    if k < |ns| - 1 {
      ReversedAt(ns[1..], k);
    } else if |ns| > 1 {
      ReversedAt(ns[1..], 0);
    }
  }

  /** A list holding the notes of ns back to front is Reversed(ns). */
  lemma ReversedFromIndices(ns: seq<Note>, r: seq<Note>)
    requires |r| == |ns|
    requires forall k :: 0 <= k < |ns| ==> r[k] == ns[|ns| - 1 - k]
    ensures r == Reversed(ns)
  {
    if ns == [] {
      assert r == [];
    } else {
      ReversedAt(ns, 0);
      forall k | 0 <= k < |ns| ensures r[k] == Reversed(ns)[k] {
        ReversedAt(ns, k);
      }
    }
  }

  /** The note appended last is listed first, ahead of all earlier notes in
      reverse order: sequential adds of A, B, C list as C, B, A. */
  lemma {:induction false} ReversedAppend(ns: seq<Note>, n: Note)
    ensures Reversed(ns + [n]) == [n] + Reversed(ns)
  {
    if ns != [] {
      assert (ns + [n])[1..] == ns[1..] + [n];
      ReversedAppend(ns[1..], n);
    }
  }

  /** Every note of ns has text that trim does not empty, that is, text
      with a character that is not whitespace. */
  ghost predicate NoBlankText(ns: seq<Note>)
  {
    forall n :: n in ns ==> !Text.AllWhitespace(n.text)
  }

  /** The `map` of an edit stores no blank text when the new record has none. */
  lemma ReplaceByIdNoBlank(ns: seq<Note>, id: int, rec: Note)
    requires NoBlankText(ns) && !Text.AllWhitespace(rec.text)
    ensures NoBlankText(ReplaceById(ns, id, rec))
  {
    var r := ReplaceById(ns, id, rec);
    forall n | n in r ensures !Text.AllWhitespace(n.text) {
      var k :| 0 <= k < |r| && r[k] == n;
      assert n == rec || n == ns[k];
    }
  }

  /** The `push` of an add stores no blank text when the new note has none. */
  lemma AppendNoBlank(ns: seq<Note>, n: Note)
    requires NoBlankText(ns) && !Text.AllWhitespace(n.text)
    ensures NoBlankText(ns + [n])
  {
    forall m | m in ns + [n] ensures !Text.AllWhitespace(m.text) {
      assert m in ns || m == n;
    }
  }

  /** The `filter` of a delete only drops notes. */
  lemma RemoveByIdNoBlank(ns: seq<Note>, id: int)
    requires NoBlankText(ns)
    ensures NoBlankText(RemoveById(ns, id))
  {
    RemoveByIdMembers(ns, id);
  }
}
