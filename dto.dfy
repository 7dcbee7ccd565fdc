/** The conversion of `MemberDTO` that builds a transfer object from a row. */
module Dto {
  import opened Wrappers
  import opened Records
  import opened Entity

  /**
   * `toMemberDTO`: copies id, email and password of the entity. It never
   * sets the name, so every DTO it builds has a null `memberName`, whatever
   * name the row holds.
   */
  function ToMemberDTO(e: MemberEntity): (d: MemberDTO)
    ensures d.id == e.id
    ensures d.memberEmail == e.memberEmail
    ensures d.memberPassword == e.memberPassword
    ensures d.memberName == None
  {
    MemberDTO(e.id, e.memberEmail, e.memberPassword, None)
  }

  /** A stored name never survives the conversion. */
  lemma NameIsLost(e: MemberEntity)
    requires e.memberName.Some?
    ensures ToMemberDTO(e).memberName != e.memberName
  {
  }

  /** Two rows convert to the same DTO exactly when they agree on id, email and password. */
  lemma ToMemberDTOSameIff(a: MemberEntity, b: MemberEntity)
    ensures ToMemberDTO(a) == ToMemberDTO(b)
        <==> a.id == b.id && a.memberEmail == b.memberEmail && a.memberPassword == b.memberPassword
  {
  }

  /** DTO to entity and back keeps email and password, and yields no id and no name. */
  lemma RoundTrip(d: MemberDTO)
    ensures ToMemberDTO(ToMemberEntity(d)) == MemberDTO(None, d.memberEmail, d.memberPassword, None)
  {
  }

  /** Entity to DTO and back keeps email and password, and loses id and name. */
  lemma EntityRoundTrip(e: MemberEntity)
    ensures ToMemberEntity(ToMemberDTO(e)) == MemberEntity(None, e.memberEmail, e.memberPassword, None)
  {
  }
}
