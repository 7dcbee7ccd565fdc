/**
 * `MemberRepository`: the JPA repository over `member_table`, as an object
 * whose fields hold the table. Its operations are specified by the
 * functions of `MemberTable`.
 */
module Repository {
  import opened Wrappers
  import opened Records
  import opened MemberTable

  class MemberRepository {
    var rows: map<nat, MemberEntity>
    var order: seq<nat>
    var nextId: nat

    /** The table these fields hold. */
    function State(): Table
      reads this
    {
      Table(rows, order, nextId)
    }

    predicate Valid()
      reads this
    {
      MemberTable.Valid(State())
    }

    /** A repository over an empty table. */
    constructor ()
      ensures Valid()
      ensures State() == Empty
    {
      rows, order, nextId := map[], [], 1;
    }

    /** `save`: writes the entity and returns it with its id, or fails on a duplicate email. */
    method Save(e: MemberEntity) returns (r: Result<MemberEntity, StoreError>)
      requires Valid()
      modifies this
      ensures Valid()
      ensures (r, State()) == MemberTable.Save(old(State()), e)
    {
      ghost var spec := MemberTable.Save(State(), e);
      if IsUpdate(State(), e) {
        if EmailTaken(State(), e.memberEmail, e.id) {
          r := Failure(DuplicateEmail);
        } else {
          rows := rows[e.id.value := e];
          r := Success(e);
        }
      } else if EmailTaken(State(), e.memberEmail, None) {
        r := Failure(DuplicateEmail);
      } else {
        var s := e.(id := Some(nextId));
        rows, order, nextId := rows[nextId := s], order + [nextId], nextId + 1;
        r := Success(s);
      }
      assert (r, State()) == spec;
    }

    /** `findById`. */
    method FindById(id: nat) returns (r: Option<MemberEntity>)
      requires Valid()
      ensures r == MemberTable.FindById(State(), id)
    {
      if id in rows {
        r := Some(rows[id]);
      } else {
        r := None;
      }
    }

    /** `findByMemberEmail`. */
    method FindByMemberEmail(email: Option<string>) returns (r: Option<MemberEntity>)
      requires Valid()
      ensures r == MemberTable.FindByMemberEmail(State(), email)
    {
      r := MemberTable.FindByMemberEmail(State(), email);
    }

    /** `findAll`. */
    method FindAll() returns (r: seq<MemberEntity>)
      requires Valid()
      ensures r == MemberTable.FindAll(State())
    {
      r := MemberTable.FindAll(State());
    }

    /** `deleteById`. */
    method DeleteById(id: nat)
      requires Valid()
      modifies this
      ensures Valid()
      ensures State() == MemberTable.DeleteById(old(State()), id)
    {
      ghost var spec := MemberTable.DeleteById(State(), id);
      if id in rows {
        rows := rows - {id};
        order := Without(order, id);
      }
      assert State() == spec;
    }
  }
}
