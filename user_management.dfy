/** The admin's user list: the search and role filter, the status label of
    each user, and which action buttons a row offers. */
module UserManagement {
  import opened Collections
  import opened Records

  /** `toLowerCase` on the ASCII letters. */
  function Lower(s: string): (r: string)
    ensures |r| == |s|
    ensures forall i :: 0 <= i < |s| ==> r[i] == LowerChar(s[i])
  {
    if |s| == 0 then [] else [LowerChar(s[0])] + Lower(s[1..])
  }

  function LowerChar(c: char): (d: char)
    ensures !('A' <= d <= 'Z')
    ensures 'A' <= c <= 'Z' ==> d == (c as int + 32) as char
    ensures !('A' <= c <= 'Z') ==> d == c
  {
    if 'A' <= c <= 'Z' then (c as int + 32) as char else c
  }

  /** `hay.includes(needle)`: `needle` occurs in `hay` at some position. */
  predicate Includes(hay: string, needle: string)
    ensures needle <= hay ==> Includes(hay, needle)
    ensures Includes(hay, needle) ==> |needle| <= |hay|
    decreases |hay|
  {
    needle <= hay || (|hay| > 0 && Includes(hay[1..], needle))
  }

  /** Every string includes the empty string. */
  lemma IncludesEmpty(hay: string)
    ensures Includes(hay, "")
  {
  }

  /** The role selector: every role, or one role. */
  datatype RoleFilter = All | Only(role: Role)

  /** The predicate `filteredUsers` keeps a user by: the lowercased search
      term occurs in the lowercased name or email, and the role selector
      admits the user's role. */
  predicate Keeps(u: User, searchTerm: string, filterRole: RoleFilter) {
    var term := Lower(searchTerm);
    && (Includes(Lower(u.name), term) || Includes(Lower(u.email), term))
    && (filterRole == All || u.role == filterRole.role)
  }

  /** `ys` is `xs` with some entries left out, the rest in their order. */
  predicate IsSubsequence<T(==)>(ys: seq<T>, xs: seq<T>)
    decreases |xs|
  {
    if |ys| == 0 then true
    else if |xs| == 0 then false
    else if ys[0] == xs[0] then IsSubsequence(ys[1..], xs[1..])
    else IsSubsequence(ys, xs[1..])
  }

  /** `users.filter(...)`: the users the predicate keeps, in their order. */
  function FilterUsers(users: seq<User>, searchTerm: string, filterRole: RoleFilter): (r: seq<User>)
    ensures forall u :: u in r <==> u in users && Keeps(u, searchTerm, filterRole)
    ensures IsSubsequence(r, users)
    ensures |r| <= |users|
  {
    if |users| == 0 then []
    else if Keeps(users[0], searchTerm, filterRole)
    then [users[0]] + FilterUsers(users[1..], searchTerm, filterRole)
    else FilterUsers(users[1..], searchTerm, filterRole)
  }

  /** Filtering a filtered list again with the same criteria changes
      nothing. */
  lemma {:induction false} FilterIsIdempotent(users: seq<User>, searchTerm: string, filterRole: RoleFilter)
    ensures var once := FilterUsers(users, searchTerm, filterRole);
      FilterUsers(once, searchTerm, filterRole) == once
  {
    if |users| > 0 {
      FilterIsIdempotent(users[1..], searchTerm, filterRole);
    }
  }

  /** An empty search with the "all" selector shows every user. */
  lemma {:induction false} EmptySearchKeepsAll(users: seq<User>)
    ensures FilterUsers(users, "", All) == users
  {
    if |users| > 0 {
      IncludesEmpty(Lower(users[0].name));
      EmptySearchKeepsAll(users[1..]);
    }
  }

  /** The status column. */
  datatype Status = Deactivated | Pending | Active

  /** Deactivated wins over everything; otherwise an unapproved mentor is
      pending and everyone else is active. */
  function StatusLabel(u: User): (s: Status)
    ensures s == Deactivated <==> !IsActive(u)
    ensures s == Pending <==> IsActive(u) && u.role == Mentor && !u.isApproved
    ensures s == Active <==> IsActive(u) && (u.role == Mentor ==> u.isApproved)
  {
    if u.isActive == Some(false) then Deactivated
    else if u.role == Mentor && !u.isApproved then Pending
    else Active
  }

  /** The activate/deactivate button is offered for every user but admins. */
  predicate OffersToggle(u: User) {
    u.role != Admin
  }

  /** The approve button is offered for an unapproved mentor that is not
      deactivated. */
  predicate OffersApprove(u: User) {
    u.role == Mentor && !u.isApproved && u.isActive != Some(false)
  }

  /** The approve button appears exactly on the rows labelled Pending, and
      such a row also offers the toggle. */
  lemma ApproveExactlyWhenPending(u: User)
    ensures OffersApprove(u) <==> StatusLabel(u) == Pending
    ensures OffersApprove(u) ==> OffersToggle(u)
  {
  }
}
