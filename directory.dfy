/**
 * What the read operations of `MemberService` return for a given table,
 * and what the service's operations do when composed. The class in
 * `Service` is proved to behave as these functions say.
 */
module Directory {
  import opened Wrappers
  import opened Records
  import opened Entity
  import opened Dto
  import opened MemberTable

  /** `login` dereferences the stored password; a null one throws a NullPointerException. */
  datatype LoginFailure = NullStoredPassword

  /**
   * `login`: look the member up by email, then compare the stored password
   * with the supplied one by exact equality. A missing email and a wrong
   * password give the same empty answer; a match gives the stored row as a
   * DTO, whose name is null.
   */
  function Login(t: Table, dto: MemberDTO): (r: Result<Option<MemberDTO>, LoginFailure>)
    requires Valid(t)
    ensures !EmailTaken(t, dto.memberEmail, None) ==> r == Success(None)
    ensures r.Failure? <==>
      exists k :: k in t.rows && dto.memberEmail.Some?
        && t.rows[k].memberEmail == dto.memberEmail && t.rows[k].memberPassword.None?
    ensures forall k :: k in t.rows && dto.memberEmail.Some? && t.rows[k].memberEmail == dto.memberEmail ==>
      && (t.rows[k].memberPassword.Some? && t.rows[k].memberPassword != dto.memberPassword ==> r == Success(None))
      && (t.rows[k].memberPassword.Some? && t.rows[k].memberPassword == dto.memberPassword ==>
            r == Success(Some(MemberDTO(Some(k), dto.memberEmail, dto.memberPassword, None))))
  {
    match FindByMemberEmail(t, dto.memberEmail)
    case None => Success(None)
    case Some(memberEntity) =>
      if memberEntity.memberPassword.None? then Failure(NullStoredPassword)
      else if memberEntity.memberPassword == dto.memberPassword then Success(Some(ToMemberDTO(memberEntity)))
      else Success(None)
  }

  /** `findById`: absent exactly when no row has the id, otherwise that row as a DTO. */
  function FindById(t: Table, id: nat): (r: Option<MemberDTO>)
    requires Valid(t)
    ensures r.None? <==> id !in t.rows
    ensures r.Some? ==>
      r.value == MemberDTO(Some(id), t.rows[id].memberEmail, t.rows[id].memberPassword, None)
  {
    match MemberTable.FindById(t, id)
    case None => None
    case Some(memberEntity) => Some(ToMemberDTO(memberEntity))
  }

  /** `updateForm`: absent exactly when no row holds the email, otherwise that row as a DTO. */
  function UpdateForm(t: Table, myEmail: Option<string>): (r: Option<MemberDTO>)
    requires Valid(t)
    ensures r.None? <==> !EmailTaken(t, myEmail, None)
    ensures forall k :: k in t.rows && myEmail.Some? && t.rows[k].memberEmail == myEmail ==>
      r == Some(MemberDTO(Some(k), myEmail, t.rows[k].memberPassword, None))
  {
    match FindByMemberEmail(t, myEmail)
    case None => None
    case Some(memberEntity) => Some(ToMemberDTO(memberEntity))
  }

  /**
   * Registration never reuses the id the caller supplied: the new row gets
   * the counter's value, which no stored row has, and the row that carries
   * the caller's id (if any) is left as it was.
   */
  lemma RegisterTakesFreshId(t: Table, dto: MemberDTO)
    requires Valid(t)
    ensures var (res, u) := MemberTable.Save(t, ToMemberEntity(dto));
      && (res.Success? ==> res.value.id == Some(t.nextId) && t.nextId !in t.rows)
      && (dto.id.Some? && dto.id.value in t.rows ==> dto.id.value in u.rows && u.rows[dto.id.value] == t.rows[dto.id.value])
  {
  }

  /**
   * Registering with an unused email, then looking it up by that email (as
   * `updateForm` does), gives back the supplied email and password under a
   * fresh id, and a null name.
   */
  lemma RegisterThenUpdateForm(t: Table, dto: MemberDTO)
    requires Valid(t)
    requires dto.memberEmail.Some? && !EmailTaken(t, dto.memberEmail, None)
    ensures var (res, u) := MemberTable.Save(t, ToMemberEntity(dto));
      && res.Success?
      && UpdateForm(u, dto.memberEmail) == Some(MemberDTO(Some(t.nextId), dto.memberEmail, dto.memberPassword, None))
  {
  }

  /**
   * Registering and then logging in with the same email and password
   * succeeds with the stored id but a null name; any other password fails
   * with the same empty answer as an unknown email.
   */
  lemma RegisterThenLogin(t: Table, dto: MemberDTO, other: string)
    requires Valid(t)
    requires dto.memberEmail.Some? && dto.memberPassword.Some? && !EmailTaken(t, dto.memberEmail, None)
    requires Some(other) != dto.memberPassword
    ensures var (res, u) := MemberTable.Save(t, ToMemberEntity(dto));
      && res.Success?
      && Login(u, dto) == Success(Some(MemberDTO(Some(t.nextId), dto.memberEmail, dto.memberPassword, None)))
      && Login(u, dto.(memberPassword := Some(other))) == Success(None)
  {
  }

  /**
   * A second registration with a stored email fails, changes nothing, and
   * exactly one row holds that email afterwards.
   */
  lemma {:induction false} RegisterDuplicateFails(t: Table, dto: MemberDTO)
    requires Valid(t) && EmailTaken(t, dto.memberEmail, None)
    ensures var (res, u) := MemberTable.Save(t, ToMemberEntity(dto));
      && res == Failure(DuplicateEmail)
      && u == t
      && |set k | k in u.rows && u.rows[k].memberEmail == dto.memberEmail| == 1
  {
    var k :| k in t.rows && t.rows[k].memberEmail == dto.memberEmail;
    var holders := set j | j in t.rows && t.rows[j].memberEmail == dto.memberEmail;
    assert holders == {k};
  }

  /**
   * `update` of a stored id with a free email overwrites that row's email,
   * password and name, keeps its id and place in the listing, and leaves
   * every other row as it was; `findById` then shows the new values.
   */
  lemma UpdateThenFindById(t: Table, dto: MemberDTO)
    requires Valid(t)
    requires dto.id.Some? && dto.id.value in t.rows && !EmailTaken(t, dto.memberEmail, dto.id)
    ensures var (res, u) := MemberTable.Save(t, ToUpdateMemberEntity(dto));
      && res.Success?
      && u.rows.Keys == t.rows.Keys
      && (forall j :: j in t.rows && j != dto.id.value ==> u.rows[j] == t.rows[j])
      && u.rows[dto.id.value] == MemberEntity(dto.id, dto.memberEmail, dto.memberPassword, dto.memberName)
      && u.order == t.order
      && FindById(u, dto.id.value) == Some(MemberDTO(dto.id, dto.memberEmail, dto.memberPassword, None))
  {
  }

  /** After `deleteById` the id is not found, and every other row is still found as before. */
  lemma DeleteThenFindById(t: Table, id: nat)
    requires Valid(t)
    ensures FindById(MemberTable.DeleteById(t, id), id) == None
    ensures forall j :: j != id ==> FindById(MemberTable.DeleteById(t, id), j) == FindById(t, j)
  {
  }

  /**
   * The example of registering Ann: the login with her password succeeds,
   * but the DTO it returns has no name; the wrong password gets nothing.
   */
  lemma RegisterAnnThenLogin()
    ensures var ann := MemberDTO(None, Some("a@x.com"), Some("p1"), Some("Ann"));
      var (res, u) := MemberTable.Save(Empty, ToMemberEntity(ann));
      && Login(u, MemberDTO(None, Some("a@x.com"), Some("p1"), None))
           == Success(Some(MemberDTO(Some(1), Some("a@x.com"), Some("p1"), None)))
      && Login(u, MemberDTO(None, Some("a@x.com"), Some("wrong"), None)) == Success(None)
  {
  }

  /**
   * The listing that `findAll` converts has every stored member in it: for
   * each stored id there is a position holding that member's DTO, and the
   * DTOs are as many as the rows.
   */
  lemma ListAllShowsEveryMember(t: Table, k: nat)
    requires Valid(t) && k in t.rows
    ensures exists i :: (0 <= i < |MemberTable.FindAll(t)| &&
      ToMemberDTO(MemberTable.FindAll(t)[i]) == MemberDTO(Some(k), t.rows[k].memberEmail, t.rows[k].memberPassword, None))
  {
    var es := MemberTable.FindAll(t);
    var i :| 0 <= i < |es| && es[i] == t.rows[k];
    assert ToMemberDTO(es[i]) == MemberDTO(Some(k), t.rows[k].memberEmail, t.rows[k].memberPassword, None);
  }
}
