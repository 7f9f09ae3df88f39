/**
 A period's stored rows: properties with ids. The importer changes them one at a time, by id, while it walks the
 file; the lemmas say how far along the diff of the whole period they are after each step, and that deleting what
 was not seen finishes it.
 */
module StoredRows {
  import opened FundingService
  import opened PropertyKey
  import opened PropertyDiff

  datatype Stored = Stored(id: nat, prop: Property)

  type Rows = seq<Stored>

  function Strip(rows: Rows): (props: Props)
    ensures |props| == |rows| && forall i :: 0 <= i < |rows| ==> props[i] == rows[i].prop
  {
    seq(|rows|, i requires 0 <= i < |rows| => rows[i].prop)
  }

  /** Ids are distinct and below the next one to be given out. */
  ghost predicate GoodIds(rows: Rows, next: nat)
  {
    && (forall i :: 0 <= i < |rows| ==> rows[i].id < next)
    && (forall i, j :: 0 <= i < j < |rows| ==> rows[i].id != rows[j].id)
  }

  function ContentIf(row: Stored, id: nat, content: Content): Stored
  {
    if row.id == id then Stored(id, row.prop.(content := content)) else row
  }

  /** UPDATE by id. */
  function WithContent(rows: Rows, id: nat, content: Content): (r: Rows)
    ensures |r| == |rows| && forall i :: 0 <= i < |rows| ==> r[i] == ContentIf(rows[i], id, content)
  {
    seq(|rows|, i requires 0 <= i < |rows| => ContentIf(rows[i], id, content))
  }

  /** DELETE by ids. */
  function Without(rows: Rows, ids: set<nat>): Rows
  {
    if rows == [] then []
    else
      var n := |rows| - 1;
      Without(rows[..n], ids) + if rows[n].id in ids then [] else [rows[n]]
  }

  lemma {:induction false} WithoutConcat(a: Rows, b: Rows, ids: set<nat>)
    ensures Without(a + b, ids) == Without(a, ids) + Without(b, ids)
  {
    if b == [] {
      assert a + b == a;
    } else {
      var n := |b| - 1;
      assert (a + b)[..|a| + n] == a + b[..n];
      WithoutConcat(a, b[..n], ids);
    }
  }

  lemma {:induction false} WithoutTwice(rows: Rows, ids: set<nat>, id: nat)
    ensures Without(Without(rows, ids), {id}) == Without(rows, ids + {id})
  {
    if rows != [] {
      var n := |rows| - 1;
      WithoutTwice(rows[..n], ids, id);
      var last := if rows[n].id in ids then [] else [rows[n]];
      WithoutConcat(Without(rows[..n], ids), last, {id});
      assert last == [] ==> Without(last, {id}) == [];
      assert last != [] ==> last[..0] == [];
    }
  }

  lemma {:induction false} WithoutMembers(rows: Rows, ids: set<nat>, r: Stored)
    ensures r in Without(rows, ids) <==> r in rows && r.id !in ids
  {
    if rows != [] {
      var n := |rows| - 1;
      WithoutMembers(rows[..n], ids, r);
      assert rows == rows[..n] + [rows[n]];
    }
  }

  lemma {:induction false} WithoutNone(rows: Rows, ids: set<nat>)
    requires forall r :: r in rows ==> r.id !in ids
    ensures Without(rows, ids) == rows
  {
    if rows != [] {
      WithoutNone(rows[..|rows| - 1], ids);
      assert rows == rows[..|rows| - 1] + [rows[|rows| - 1]];
    }
  }

  lemma {:induction false} WithoutGood(rows: Rows, ids: set<nat>, next: nat)
    requires GoodIds(rows, next)
    ensures GoodIds(Without(rows, ids), next)
  {
    if rows != [] {
      var n := |rows| - 1;
      WithoutGood(rows[..n], ids, next);
      forall r | r in Without(rows[..n], ids) ensures r.id != rows[n].id {
        WithoutMembers(rows[..n], ids, r);
      }
    }
  }

  /** Deleting one existing row removes exactly one. */
  lemma {:induction false} WithoutOne(rows: Rows, r: Stored, next: nat)
    requires GoodIds(rows, next) && r in rows
    ensures |Without(rows, {r.id})| == |rows| - 1
  {
    var n := |rows| - 1;
    if rows[n] == r {
      WithoutNone(rows[..n], {r.id});
    } else {
      WithoutOne(rows[..n], r, next);
    }
  }

  // ----- the rows while the file is being applied

  /** Stored position i after the wanted properties w were applied, before anything is deleted. */
  function PatchedAt(stored: Props, i: nat, w: Props): Property
    requires i < |stored|
  {
    if Winner(stored, i) then Patch(stored[i], w) else stored[i]
  }

  /** Rows that are the snapshot patched by w, followed by what w created. */
  ghost predicate Progress(snapshot: Rows, w: Props, rows: Rows, next: nat)
  {
    && GoodIds(rows, next)
    && |snapshot| <= |rows|
    && (forall i :: 0 <= i < |snapshot| ==> rows[i] == Stored(snapshot[i].id, PatchedAt(Strip(snapshot), i, w)))
    && Strip(rows[|snapshot|..]) == Created(Strip(snapshot), w)
  }

  lemma ProgressStart(snapshot: Rows, next: nat)
    requires GoodIds(snapshot, next)
    ensures Progress(snapshot, [], snapshot, next)
  {
    hide MatchKey;
  }

  lemma Snoc(w: Props, p: Property)
    ensures (w + [p])[..|w|] == w
  {
  }

  lemma ProgressCreate(snapshot: Rows, w: Props, rows: Rows, next: nat, p: Property)
    requires Progress(snapshot, w, rows, next) && !Has(Strip(snapshot), MatchKey(p))
    ensures Progress(snapshot, w + [p], rows + [Stored(next, Settle(p))], next + 1)
  {
    hide MatchKey;
    Snoc(w, p);
    var r := rows + [Stored(next, Settle(p))];
    assert r[|snapshot|..] == rows[|snapshot|..] + [Stored(next, Settle(p))];
    assert Strip(r[|snapshot|..]) == Strip(rows[|snapshot|..]) + [Settle(p)];
    forall i | 0 <= i < |snapshot|
      ensures r[i] == Stored(snapshot[i].id, PatchedAt(Strip(snapshot), i, w + [p]))
    {
      assert MatchKey(Strip(snapshot)[i]) != MatchKey(p);
    }
  }

  lemma NothingMoreCreated(snapshot: Rows, w: Props, p: Property)
    requires Has(Strip(snapshot), MatchKey(p))
    ensures Created(Strip(snapshot), w + [p]) == Created(Strip(snapshot), w)
  {
    hide MatchKey, Has;
    Snoc(w, p);
  }

  lemma ProgressUpdate(snapshot: Rows, w: Props, rows: Rows, next: nat, p: Property, i: nat)
    requires Progress(snapshot, w, rows, next) && i == LastIndex(Strip(snapshot), MatchKey(p))
    ensures Progress(snapshot, w + [p],
                     if snapshot[i].prop.content == p.content then rows
                     else WithContent(rows, snapshot[i].id, Settled(p.content)),
                     next)
  {
    hide MatchKey, Created, Settled;
    Snoc(w, p);
    NothingMoreCreated(snapshot, w, p);
    var stored := Strip(snapshot);
    var r := if snapshot[i].prop.content == p.content then rows
             else WithContent(rows, snapshot[i].id, Settled(p.content));
    assert rows[i].id == snapshot[i].id;
    forall k | 0 <= k < |snapshot|
      ensures r[k] == Stored(snapshot[k].id, PatchedAt(stored, k, w + [p]))
    {
      PatchKeepsIdentity(stored[k], w);
    }
    assert r[|snapshot|..] == rows[|snapshot|..];
  }

  lemma {:induction false} PatchKeepsIdentity(p: Property, w: Props)
    ensures Patch(p, w).(content := p.content) == p
  {
    hide MatchKey;
    if w != [] { PatchKeepsIdentity(p, w[..|w| - 1]); }
  }

  // ----- the rows once everything unwanted is deleted

  /** The ids of stored properties that the lookup table finds and the file does not name. */
  ghost function Unwanted(snapshot: Rows, w: Props): set<nat>
  {
    set i | 0 <= i < |snapshot| && Winner(Strip(snapshot), i) && !Has(w, MatchKey(snapshot[i].prop)) :: snapshot[i].id
  }

  lemma UnwantedAt(snapshot: Rows, w: Props, next: nat, i: nat)
    requires GoodIds(snapshot, next) && i < |snapshot|
    ensures snapshot[i].id in Unwanted(snapshot, w)
       <==> Winner(Strip(snapshot), i) && !Has(w, MatchKey(snapshot[i].prop))
  {
    hide MatchKey, Winner, Has;
  }

  lemma {:induction false} KeptRows(snapshot: Rows, w: Props, rows: Rows, next: nat, n: nat)
    requires Progress(snapshot, w, rows, next) && GoodIds(snapshot, next) && n <= |snapshot|
    ensures Strip(Without(rows[..n], Unwanted(snapshot, w))) == Kept(Strip(snapshot), n, w)
  {
    hide MatchKey, Winner, Has, Patch, Created, GoodIds;
    if n > 0 {
      KeptRows(snapshot, w, rows, next, n - 1);
      var ids, stored := Unwanted(snapshot, w), Strip(snapshot);
      assert rows[..n][..n - 1] == rows[..n - 1];
      UnwantedAt(snapshot, w, next, n - 1);
      var kept := Without(rows[..n - 1], ids);
      assert Strip(kept + [rows[n - 1]]) == Strip(kept) + [rows[n - 1].prop];
    }
  }

  lemma CreatedRowsStay(snapshot: Rows, w: Props, rows: Rows, next: nat)
    requires Progress(snapshot, w, rows, next)
    ensures Without(rows[|snapshot|..], Unwanted(snapshot, w)) == rows[|snapshot|..]
  {
    hide MatchKey, Created, Strip;
    var n := |snapshot|;
    forall r | r in rows[n..] ensures r.id !in Unwanted(snapshot, w) {
      var k :| n <= k < |rows| && rows[k] == r;
      assert forall i :: 0 <= i < n ==> rows[i].id == snapshot[i].id;
    }
    WithoutNone(rows[n..], Unwanted(snapshot, w));
  }

  lemma StripConcat(a: Rows, b: Rows)
    ensures Strip(a + b) == Strip(a) + Strip(b)
  {
  }

  /** Deleting the unwanted rows leaves the outcome of the diff. */
  lemma ProgressFinish(snapshot: Rows, w: Props, rows: Rows, next: nat)
    requires Progress(snapshot, w, rows, next) && GoodIds(snapshot, next)
    ensures Strip(Without(rows, Unwanted(snapshot, w))) == Synced(Strip(snapshot), w)
  {
    hide MatchKey, Unwanted;
    var n, ids := |snapshot|, Unwanted(snapshot, w);
    assert rows == rows[..n] + rows[n..];
    WithoutConcat(rows[..n], rows[n..], ids);
    KeptRows(snapshot, w, rows, next, n);
    CreatedRowsStay(snapshot, w, rows, next);
    StripConcat(Without(rows[..n], ids), rows[n..]);
  }

  // ----- the lookup table during deletion

  ghost predicate IsLookup(byKey: map<string, Stored>, snapshot: Rows)
  {
    && (forall key :: key in byKey <==> Has(Strip(snapshot), key))
    && (forall key :: key in byKey ==> byKey[key] == snapshot[LastIndex(Strip(snapshot), key)])
  }

  ghost function Dropped(byKey: map<string, Stored>, keys: set<string>): set<nat>
  {
    set key | key in byKey && key in keys :: byKey[key].id
  }

  lemma NothingDropped(byKey: map<string, Stored>)
    ensures Dropped(byKey, {}) == {}
  {
  }

  lemma DropMore(byKey: map<string, Stored>, keys: set<string>, key: string)
    requires key in byKey
    ensures Dropped(byKey, keys + {key}) == Dropped(byKey, keys) + {byKey[key].id}
  {
  }

  /** A row the table finds is still there while only rows of other keys were dropped. */
  lemma StillThere(snapshot: Rows, w: Props, rows: Rows, next: nat, byKey: map<string, Stored>, keys: set<string>,
                   key: string)
    requires IsLookup(byKey, snapshot) && key in byKey && key !in keys
    requires Progress(snapshot, w, rows, next) && GoodIds(snapshot, next)
    ensures exists r :: r in Without(rows, Dropped(byKey, keys)) && r.id == byKey[key].id
  {
    hide MatchKey, PatchedAt, Created;
    var i := LastIndex(Strip(snapshot), key);
    assert rows[i].id == snapshot[i].id;
    forall other | other in byKey && other in keys ensures byKey[other].id != snapshot[i].id {
      assert LastIndex(Strip(snapshot), other) != i;
    }
    WithoutMembers(rows, Dropped(byKey, keys), rows[i]);
  }

  /** Dropping every key the file does not name drops exactly the unwanted rows. */
  lemma DroppedIsUnwanted(snapshot: Rows, w: Props, byKey: map<string, Stored>, keys: set<string>)
    requires IsLookup(byKey, snapshot)
    requires forall key :: key in byKey ==> (key in keys <==> !Has(w, key))
    ensures Dropped(byKey, keys) == Unwanted(snapshot, w)
  {
    hide MatchKey;
    var stored := Strip(snapshot);
    forall id | id in Dropped(byKey, keys) ensures id in Unwanted(snapshot, w) {
      var key :| key in byKey && key in keys && byKey[key].id == id;
      var i := LastIndex(stored, key);
      assert Winner(stored, i);
    }
    forall id | id in Unwanted(snapshot, w) ensures id in Dropped(byKey, keys) {
      var i :| 0 <= i < |snapshot| && Winner(stored, i) && !Has(w, MatchKey(snapshot[i].prop)) && snapshot[i].id == id;
      assert byKey[MatchKey(stored[i])] == snapshot[i];
    }
  }

  lemma HasAppend(w: Props, p: Property, key: string)
    ensures Has(w + [p], key) <==> Has(w, key) || key == MatchKey(p)
  {
    hide MatchKey;
    var x := w + [p];
    if Has(w, key) {
      assert x[LastIndex(w, key)] == w[LastIndex(w, key)];
    }
    assert x[|w|] == p;
  }
}
