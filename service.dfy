/**
 * `MemberService`: the member directory over a repository. Its methods
 * convert between DTOs and entities and make one repository call each;
 * the read operations have no `modifies` clause, so they leave the table
 * as it was.
 */
module Service {
  import opened Wrappers
  import opened Records
  import opened Entity
  import opened Dto
  import opened MemberTable
  import opened Repository
  import Directory

  class MemberService {
    const memberRepository: MemberRepository

    constructor (memberRepository: MemberRepository)
      ensures this.memberRepository == memberRepository
    {
      this.memberRepository := memberRepository;
    }

    /**
     * `save` (registration): stores the DTO as a new row under a fresh id,
     * whatever id the DTO carries; fails, changing nothing, when its email
     * is already stored.
     */
    method Save(memberDTO: MemberDTO) returns (r: Outcome<StoreError>)
      requires memberRepository.Valid()
      modifies memberRepository
      ensures memberRepository.Valid()
      ensures r.Fail? <==> EmailTaken(old(memberRepository.State()), memberDTO.memberEmail, None)
      ensures r.Fail? ==> memberRepository.State() == old(memberRepository.State())
      ensures r.Pass? ==>
        var n := old(memberRepository.nextId);
        && n !in old(memberRepository.rows)
        && memberRepository.rows == old(memberRepository.rows)[n := ToMemberEntity(memberDTO).(id := Some(n))]
        && memberRepository.order == old(memberRepository.order) + [n]
        && memberRepository.nextId == n + 1
    {
      var memberEntity := ToMemberEntity(memberDTO);
      var saved := memberRepository.Save(memberEntity);
      r := if saved.Failure? then Fail(saved.error) else Pass;
    }

    /** `login`, as `Directory.Login` states it. */
    method Login(memberDTO: MemberDTO) returns (r: Result<Option<MemberDTO>, Directory.LoginFailure>)
      requires memberRepository.Valid()
      ensures r == Directory.Login(memberRepository.State(), memberDTO)
    {
      var byMemberEmail := memberRepository.FindByMemberEmail(memberDTO.memberEmail);
      if byMemberEmail.Some? {
        var memberEntity := byMemberEmail.value;
        if memberEntity.memberPassword.None? {
          r := Failure(Directory.NullStoredPassword);
        } else if memberEntity.memberPassword == memberDTO.memberPassword {
          r := Success(Some(ToMemberDTO(memberEntity)));
        } else {
          r := Success(None);
        }
      } else {
        r := Success(None);
      }
    }

    /**
     * `findAll`: one DTO per stored row, in the repository's order, the
     * i-th being the i-th row converted, so no name appears.
     * `Directory.ListAllShowsEveryMember` says every stored member appears.
     */
    method FindAll() returns (memberDTOList: seq<MemberDTO>)
      requires memberRepository.Valid()
      ensures |memberDTOList| == |memberRepository.rows|
      ensures forall i :: 0 <= i < |memberDTOList| ==>
        memberDTOList[i] == ToMemberDTO(MemberTable.FindAll(memberRepository.State())[i])
    {
      var memberEntityList := memberRepository.FindAll();
      assert |memberEntityList| == |memberRepository.rows|;
      memberDTOList := [];
      for i := 0 to |memberEntityList|
        invariant |memberDTOList| == i
        invariant forall j :: 0 <= j < i ==> memberDTOList[j] == ToMemberDTO(memberEntityList[j])
      {
        memberDTOList := memberDTOList + [ToMemberDTO(memberEntityList[i])];
      }
    }

    /** `findById`, as `Directory.FindById` states it. */
    method FindById(id: nat) returns (r: Option<MemberDTO>)
      requires memberRepository.Valid()
      ensures r == Directory.FindById(memberRepository.State(), id)
    {
      var optionalMemberEntity := memberRepository.FindById(id);
      if optionalMemberEntity.Some? {
        r := Some(ToMemberDTO(optionalMemberEntity.value));
      } else {
        r := None;
      }
    }

    /** `updateForm`, as `Directory.UpdateForm` states it. */
    method UpdateForm(myEmail: Option<string>) returns (r: Option<MemberDTO>)
      requires memberRepository.Valid()
      ensures r == Directory.UpdateForm(memberRepository.State(), myEmail)
    {
      var optionalMemberEntity := memberRepository.FindByMemberEmail(myEmail);
      if optionalMemberEntity.Some? {
        r := Some(ToMemberDTO(optionalMemberEntity.value));
      } else {
        r := None;
      }
    }

    /**
     * `update`: saves the DTO with its id. For a stored id it overwrites
     * that row's email, password and name in place, keeping the id, unless
     * another row holds the email; any other DTO is inserted as by `Save`.
     */
    method Update(memberDTO: MemberDTO) returns (r: Outcome<StoreError>)
      requires memberRepository.Valid()
      modifies memberRepository
      ensures memberRepository.Valid()
      ensures memberDTO.id.Some? && memberDTO.id.value in old(memberRepository.rows) ==>
        && (r.Fail? <==> EmailTaken(old(memberRepository.State()), memberDTO.memberEmail, memberDTO.id))
        && (r.Fail? ==> memberRepository.State() == old(memberRepository.State()))
        && (r.Pass? ==>
              && memberRepository.rows == old(memberRepository.rows)[memberDTO.id.value := ToUpdateMemberEntity(memberDTO)]
              && memberRepository.order == old(memberRepository.order)
              && memberRepository.nextId == old(memberRepository.nextId))
      ensures !(memberDTO.id.Some? && memberDTO.id.value in old(memberRepository.rows)) ==>
        && (r.Fail? <==> EmailTaken(old(memberRepository.State()), memberDTO.memberEmail, None))
        && (r.Fail? ==> memberRepository.State() == old(memberRepository.State()))
        && (r.Pass? ==>
              var n := old(memberRepository.nextId);
              && n !in old(memberRepository.rows)
              && memberRepository.rows == old(memberRepository.rows)[n := ToUpdateMemberEntity(memberDTO).(id := Some(n))]
              && memberRepository.order == old(memberRepository.order) + [n]
              && memberRepository.nextId == n + 1)
    {
      var saved := memberRepository.Save(ToUpdateMemberEntity(memberDTO));
      r := if saved.Failure? then Fail(saved.error) else Pass;
    }

    /** `deleteById`: removes that row only; an absent id changes nothing. */
    method DeleteById(id: nat)
      requires memberRepository.Valid()
      modifies memberRepository
      ensures memberRepository.Valid()
      ensures memberRepository.rows == old(memberRepository.rows) - {id}
      ensures memberRepository.nextId == old(memberRepository.nextId)
      ensures id !in old(memberRepository.rows) ==> memberRepository.State() == old(memberRepository.State())
    {
      memberRepository.DeleteById(id);
    }
  }
}
