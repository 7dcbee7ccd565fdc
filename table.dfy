/**
 * The contents of `member_table` and what the JPA repository does with them.
 * The repository is a library whose code is not part of this model; the
 * functions below state its assumed semantics:
 *  - ids come from an identity column: a new row gets the next counter value;
 *  - `member_email` is unique among non-null values; a write that would
 *    break this fails and changes nothing;
 *  - `save` is an upsert: an entity carrying the id of a stored row
 *    overwrites that row, any other entity is inserted under a fresh id;
 *  - `findAll` lists the rows in insertion order;
 *  - `deleteById` of an absent id changes nothing;
 *  - `findByMemberEmail(null)` finds nothing;
 *  - emails are compared exactly, character by character (a binary
 *    collation), both by the unique constraint and by the lookup.
 */
module MemberTable {
  import opened Wrappers
  import opened Records

  /** The unique constraint on `member_email` rejected a write. */
  datatype StoreError = DuplicateEmail

  /**
   * `rows` maps each stored id to its row, `order` lists the stored ids in
   * insertion order and `nextId` is the identity column's next value.
   */
  datatype Table = Table(rows: map<nat, MemberEntity>, order: seq<nat>, nextId: nat)

  /** A fresh table; identity columns start at 1. */
  const Empty: Table := Table(map[], [], 1)

  predicate Increasing(s: seq<nat>)
  {
    forall i, j :: 0 <= i < j < |s| ==> s[i] < s[j]
  }

  /** No two rows share a non-null email. */
  predicate UniqueEmails(rows: map<nat, MemberEntity>)
  {
    forall a, b :: a in rows && b in rows && a != b && rows[a].memberEmail.Some? ==>
      rows[a].memberEmail != rows[b].memberEmail
  }

  /** Every row is stored under its own id, and every id is below the counter. */
  predicate KeysAreIds(t: Table)
  {
    forall k :: k in t.rows ==> t.rows[k].id == Some(k) && k < t.nextId
  }

  /** `order` lists exactly the stored ids, each once. */
  predicate OrderListsRows(t: Table)
  {
    && (forall i :: 0 <= i < |t.order| ==> t.order[i] in t.rows)
    && (forall k :: k in t.rows ==> k in t.order)
    && Increasing(t.order)
    && |t.order| == |t.rows|
  }

  /** The table invariant. */
  predicate Valid(t: Table)
  {
    KeysAreIds(t) && OrderListsRows(t) && UniqueEmails(t.rows)
  }

  /** Some row other than the one with id `except` holds the non-null `email`. */
  predicate EmailTaken(t: Table, email: Option<string>, except: Option<nat>)
  {
    email.Some? && exists k :: k in t.rows && Some(k) != except && t.rows[k].memberEmail == email
  }

  /** `save` of `e` overwrites a stored row: `e` carries that row's id. */
  predicate IsUpdate(t: Table, e: MemberEntity)
  {
    e.id.Some? && e.id.value in t.rows
  }

  /** `findById`: the row with that id, if any. */
  function FindById(t: Table, id: nat): (r: Option<MemberEntity>)
    requires Valid(t)
    ensures r.None? <==> id !in t.rows
    ensures r.Some? ==> r.value == t.rows[id] && r.value.id == Some(id)
  {
    if id in t.rows then Some(t.rows[id]) else None
  }

  /** The first id of `ids` whose row holds `email`, if any. */
  function FindIn(rows: map<nat, MemberEntity>, ids: seq<nat>, email: string): (r: Option<nat>)
    requires forall i :: 0 <= i < |ids| ==> ids[i] in rows
    ensures r.Some? ==> r.value in rows && rows[r.value].memberEmail == Some(email)
    ensures r.None? ==> forall i :: 0 <= i < |ids| ==> rows[ids[i]].memberEmail != Some(email)
    decreases |ids|
  {
    if ids == [] then None
    else if rows[ids[0]].memberEmail == Some(email) then Some(ids[0])
    else FindIn(rows, ids[1..], email)
  }

  /**
   * `findByMemberEmail`: the row holding the email. It is absent exactly
   * when no row holds it, and otherwise it is the one such row.
   */
  function FindByMemberEmail(t: Table, email: Option<string>): (r: Option<MemberEntity>)
    requires Valid(t)
    ensures r.None? <==> !EmailTaken(t, email, None)
    ensures forall k :: k in t.rows && email.Some? && t.rows[k].memberEmail == email ==> r == Some(t.rows[k])
  {
    if email.None? then None
    else
      match FindIn(t.rows, t.order, email.value)
      case Some(k) => Some(t.rows[k])
      case None =>
        assert forall k :: k in t.rows ==> t.rows[k].memberEmail != email by {
          forall k | k in t.rows ensures t.rows[k].memberEmail != email {
            assert k in t.order;
            var i :| 0 <= i < |t.order| && t.order[i] == k;
          }
        }
        None
  }

  /** `findAll`: every row once, in insertion order (which is ascending id order). */
  function FindAll(t: Table): (r: seq<MemberEntity>)
    requires Valid(t)
    ensures |r| == |t.rows|
    ensures forall i :: 0 <= i < |r| ==> r[i].id.Some? && r[i].id.value in t.rows && t.rows[r[i].id.value] == r[i]
    ensures forall i, j :: 0 <= i < j < |r| ==> r[i].id.value < r[j].id.value
    ensures forall k :: k in t.rows ==> exists i :: 0 <= i < |r| && r[i] == t.rows[k]
  {
    var r := seq(|t.order|, i requires 0 <= i < |t.order| => t.rows[t.order[i]]);
    ListedRowsCoverTable(t, r);
    r
  }

  lemma ListedRowsCoverTable(t: Table, r: seq<MemberEntity>)
    requires Valid(t)
    requires |r| == |t.order| && forall i :: 0 <= i < |r| ==> r[i] == t.rows[t.order[i]]
    ensures forall i :: 0 <= i < |r| ==> r[i].id.Some? && r[i].id.value in t.rows && t.rows[r[i].id.value] == r[i]
    ensures forall i, j :: 0 <= i < j < |r| ==> r[i].id.value < r[j].id.value
    ensures forall k :: k in t.rows ==> exists i :: 0 <= i < |r| && r[i] == t.rows[k]
  {
    forall i, j | 0 <= i < j < |r| ensures r[i].id.value < r[j].id.value {
      assert r[i].id == Some(t.order[i]) && r[j].id == Some(t.order[j]);
    }
    forall k | k in t.rows ensures exists i :: 0 <= i < |r| && r[i] == t.rows[k] {
      assert k in t.order;
      var i :| 0 <= i < |t.order| && t.order[i] == k;
      assert r[i] == t.rows[k];
    }
  }

  /**
   * `save`: an upsert guarded by the unique email. It fails exactly when
   * another row holds the entity's non-null email, and then changes nothing.
   * An update keeps the id, the position and the counter; an insert takes
   * the counter's value as a fresh id larger than every stored one and puts
   * the row last. Either way every other row is left as it was.
   */
  function Save(t: Table, e: MemberEntity): (r: (Result<MemberEntity, StoreError>, Table))
    requires Valid(t)
    ensures Valid(r.1)
    ensures r.0.Failure? <==> EmailTaken(t, e.memberEmail, if IsUpdate(t, e) then e.id else None)
    ensures r.0.Failure? ==> r.1 == t
    ensures r.1.nextId >= t.nextId
    ensures r.0.Success? ==>
      var s := r.0.value;
      && s.id.Some?
      && s == e.(id := s.id)
      && r.1.rows == t.rows[s.id.value := s]
      && (IsUpdate(t, e) ==> s.id == e.id && r.1.order == t.order && r.1.nextId == t.nextId)
      && (!IsUpdate(t, e) ==>
            && s.id == Some(t.nextId)
            && r.1.nextId == t.nextId + 1
            && s.id.value !in t.rows
            && (forall k :: k in t.rows ==> k < s.id.value)
            && r.1.order == t.order + [s.id.value])
  {
    if IsUpdate(t, e) then
      if EmailTaken(t, e.memberEmail, e.id) then (Failure(DuplicateEmail), t)
      else
        OverwriteKeepsValid(t, e);
        (Success(e), t.(rows := t.rows[e.id.value := e]))
    else
      if EmailTaken(t, e.memberEmail, None) then (Failure(DuplicateEmail), t)
      else
        var s := e.(id := Some(t.nextId));
        InsertKeepsValid(t, s);
        (Success(s), Table(t.rows[t.nextId := s], t.order + [t.nextId], t.nextId + 1))
  }

  /** Overwriting a stored row with an entity of the same id whose email is free keeps the invariant. */
  lemma OverwriteKeepsValid(t: Table, e: MemberEntity)
    requires Valid(t) && IsUpdate(t, e) && !EmailTaken(t, e.memberEmail, e.id)
    ensures Valid(t.(rows := t.rows[e.id.value := e]))
  {
    var k := e.id.value;
    var u := t.(rows := t.rows[k := e]);
    assert u.rows.Keys == t.rows.Keys;
    assert OrderListsRows(u);
    forall a, b | a in u.rows && b in u.rows && a != b && u.rows[a].memberEmail.Some?
      ensures u.rows[a].memberEmail != u.rows[b].memberEmail
    {
      if a == k {
        assert b in t.rows && Some(b) != e.id;
      } else if b == k {
        assert a in t.rows && Some(a) != e.id;
      }
    }
  }

  /** Appending a row under the counter's value, when its email is free, keeps the invariant. */
  lemma InsertKeepsValid(t: Table, s: MemberEntity)
    requires Valid(t) && s.id == Some(t.nextId) && !EmailTaken(t, s.memberEmail, None)
    ensures Valid(Table(t.rows[t.nextId := s], t.order + [t.nextId], t.nextId + 1))
  {
    var u := Table(t.rows[t.nextId := s], t.order + [t.nextId], t.nextId + 1);
    InsertKeepsOrder(t, s);
    InsertKeepsEmailsUnique(t, s);
    assert KeysAreIds(u);
  }

  lemma InsertKeepsOrder(t: Table, s: MemberEntity)
    requires KeysAreIds(t) && OrderListsRows(t) && s.id == Some(t.nextId)
    ensures OrderListsRows(Table(t.rows[t.nextId := s], t.order + [t.nextId], t.nextId + 1))
  {
    var n := t.nextId;
    assert n !in t.rows;
    assert |t.rows[n := s]| == |t.rows| + 1;
    AppendKeepsIncreasing(t.order, n);
    forall k | k in t.rows[n := s] ensures k in t.order + [n] {
      if k != n {
        assert k in t.order;
      }
    }
  }

  lemma AppendKeepsIncreasing(order: seq<nat>, n: nat)
    requires Increasing(order) && forall i :: 0 <= i < |order| ==> order[i] < n
    ensures Increasing(order + [n])
  {
    var o := order + [n];
    forall i, j | 0 <= i < j < |o| ensures o[i] < o[j] {
      assert o[i] == order[i];
    }
  }

  lemma InsertKeepsEmailsUnique(t: Table, s: MemberEntity)
    requires Valid(t) && s.id == Some(t.nextId) && !EmailTaken(t, s.memberEmail, None)
    ensures UniqueEmails(t.rows[t.nextId := s])
  {
    var n := t.nextId;
    var rows := t.rows[n := s];
    forall a, b | a in rows && b in rows && a != b && rows[a].memberEmail.Some?
      ensures rows[a].memberEmail != rows[b].memberEmail
    {
      if a == n {
        assert b in t.rows;
      } else if b == n {
        assert a in t.rows;
      }
    }
  }

  /** `ids` with `x` taken out; the order of the rest is kept. */
  function Without(ids: seq<nat>, x: nat): (r: seq<nat>)
    requires Increasing(ids)
    ensures Increasing(r)
    ensures forall y :: y in r <==> y in ids && y != x
    ensures |r| == if x in ids then |ids| - 1 else |ids|
    decreases |ids|
  {
    if ids == [] then []
    else if ids[0] == x then ids[1..]
    else
      var rest := Without(ids[1..], x);
      assert forall j :: 0 <= j < |rest| ==> ids[0] < rest[j] by {
        forall j | 0 <= j < |rest| ensures ids[0] < rest[j] {
          assert rest[j] in ids[1..];
          var m :| 0 <= m < |ids[1..]| && ids[1..][m] == rest[j];
          assert ids[1 + m] == rest[j];
        }
      }
      [ids[0]] + rest
  }

  /**
   * `deleteById`: removes the row with that id, leaves every other row and
   * the counter as they were, and is a no-op for an absent id.
   */
  function DeleteById(t: Table, id: nat): (r: Table)
    requires Valid(t)
    ensures Valid(r)
    ensures forall k :: k in r.rows <==> k in t.rows && k != id
    ensures forall k :: k in r.rows ==> r.rows[k] == t.rows[k]
    ensures forall k :: k in r.order <==> k in t.order && k != id
    ensures r.nextId == t.nextId
    ensures id !in t.rows ==> r == t
  {
    if id in t.rows then
      DeleteKeepsValid(t, id);
      Table(t.rows - {id}, Without(t.order, id), t.nextId)
    else t
  }

  /** Removing a stored row from the map and from the order keeps the invariant. */
  lemma DeleteKeepsValid(t: Table, id: nat)
    requires Valid(t) && id in t.rows
    ensures Valid(Table(t.rows - {id}, Without(t.order, id), t.nextId))
  {
    DeleteKeepsOrder(t, id);
    var rows := t.rows - {id};
    assert forall k :: k in rows ==> k in t.rows && rows[k] == t.rows[k];
  }

  lemma DeleteKeepsOrder(t: Table, id: nat)
    requires OrderListsRows(t) && id in t.rows
    ensures OrderListsRows(Table(t.rows - {id}, Without(t.order, id), t.nextId))
  {
    var rows := t.rows - {id};
    var order := Without(t.order, id);
    assert id in t.order;
    assert |order| == |t.order| - 1;
    RemoveKeyCard(t.rows, id);
    WithoutListsRest(t, id);
  }

  lemma WithoutListsRest(t: Table, id: nat)
    requires OrderListsRows(t)
    ensures forall i :: 0 <= i < |Without(t.order, id)| ==> Without(t.order, id)[i] in t.rows - {id}
    ensures forall k :: k in t.rows - {id} ==> k in Without(t.order, id)
  {
    var order := Without(t.order, id);
    forall i | 0 <= i < |order| ensures order[i] in t.rows - {id} {
      assert order[i] in order;
    }
  }

  lemma RemoveKeyCard(m: map<nat, MemberEntity>, k: nat)
    requires k in m
    ensures |m - {k}| == |m| - 1
  {
    assert (m - {k}).Keys == m.Keys - {k};
    assert |m.Keys - {k}| == |m.Keys| - 1;
  }
}
