/**
 * The two shapes of a member: the persisted row (`MemberEntity`, mapped to
 * `member_table`) and the transfer object exchanged with callers
 * (`MemberDTO`). Every field of both Java classes is a nullable reference,
 * so every field here is an `Option`; a `Long` id is an `Option<nat>`.
 */
module Records {
  import opened Wrappers

  /** The transfer object: the only shape callers of the service see. */
  datatype MemberDTO = MemberDTO(
    id: Option<nat>,
    memberEmail: Option<string>,
    memberPassword: Option<string>,
    memberName: Option<string>)

  /** A row of `member_table`; `id` is the identity column, `memberEmail` is unique. */
  datatype MemberEntity = MemberEntity(
    id: Option<nat>,
    memberEmail: Option<string>,
    memberPassword: Option<string>,
    memberName: Option<string>)
}
