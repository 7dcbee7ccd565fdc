/** The conversions of `MemberEntity` that build a row from a transfer object. */
module Entity {
  import opened Wrappers
  import opened Records

  /**
   * `toMemberEntity`: a new entity whose email, password and name are the
   * DTO's; the id is never copied, so the row is always new to the store.
   */
  function ToMemberEntity(dto: MemberDTO): (e: MemberEntity)
    ensures e.id == None
    ensures e.memberEmail == dto.memberEmail
    ensures e.memberPassword == dto.memberPassword
    ensures e.memberName == dto.memberName
  {
    MemberEntity(None, dto.memberEmail, dto.memberPassword, dto.memberName)
  }

  /**
   * `toUpdateMemberEntity`, which the service calls but the entity class does
   * not define: assumed to be `toMemberEntity` that also copies the DTO's id,
   * so that saving it updates the row with that id.
   */
  function ToUpdateMemberEntity(dto: MemberDTO): (e: MemberEntity)
    ensures e.id == dto.id
    ensures e.memberEmail == dto.memberEmail
    ensures e.memberPassword == dto.memberPassword
    ensures e.memberName == dto.memberName
  {
    ToMemberEntity(dto).(id := dto.id)
  }

  /** For a DTO without id, updating builds the same entity as registering. */
  lemma UpdateEntityDiffersOnlyInId(dto: MemberDTO)
    requires dto.id.None?
    ensures ToUpdateMemberEntity(dto) == ToMemberEntity(dto)
  {
  }

  /** A registration entity carries the same data whatever id the caller put in the DTO. */
  lemma ToMemberEntityIgnoresId(dto: MemberDTO, id: Option<nat>)
    ensures ToMemberEntity(dto.(id := id)) == ToMemberEntity(dto)
  {
  }
}
