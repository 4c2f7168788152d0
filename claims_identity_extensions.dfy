/** ClaimsIdentityExtensions.cs: reading user details from the claims of a
    `ClaimsPrincipal`, given as its claims in enumeration order (identity by
    identity). */
module ClaimsIdentityExtensions {
  import opened Wrappers
  import opened Text

  datatype Claim = Claim(claimType: string, value: string)

  /** The `ClaimTypes` constants the lookups use. */
  const GivenName: string := "http://schemas.xmlsoap.org/ws/2005/05/identity/claims/givenname"
  const Surname: string := "http://schemas.xmlsoap.org/ws/2005/05/identity/claims/surname"
  const Upn: string := "http://schemas.xmlsoap.org/ws/2005/05/identity/claims/upn"
  const Email: string := "http://schemas.xmlsoap.org/ws/2005/05/identity/claims/emailaddress"
  const Role: string := "http://schemas.microsoft.com/ws/2008/06/identity/claims/role"
  const Name: string := "http://schemas.xmlsoap.org/ws/2005/05/identity/claims/name"

  /** `FindFirst(match)`: the first claim that matches, if any. */
  function FindFirst(claims: seq<Claim>, match_: Claim -> bool): (r: Option<Claim>)
    ensures r.Some? <==> exists i :: 0 <= i < |claims| && match_(claims[i])
    ensures r.Some? ==> exists i :: 0 <= i < |claims| && claims[i] == r.value && match_(claims[i])
                          && forall j :: 0 <= j < i ==> !match_(claims[j])
    decreases |claims|
  {
    if claims == [] then None
    else if match_(claims[0]) then Some(claims[0])
    else
      var r := FindFirst(claims[1..], match_);
      assert forall i :: 1 <= i < |claims| ==> claims[i] == claims[1..][i - 1];
      r
  }

  /** `FindFirstValue(claimType)`: the value of the first claim whose type
      equals `claimType` ignoring case, or null. */
  function FindFirstValue(claims: seq<Claim>, claimType: string): (r: Option<string>)
    ensures r.None? <==> forall i :: 0 <= i < |claims| ==> !EqualsIgnoreCase(claims[i].claimType, claimType)
    ensures r.Some? ==> exists i :: 0 <= i < |claims| && claims[i].value == r.value
                          && EqualsIgnoreCase(claims[i].claimType, claimType)
                          && forall j :: 0 <= j < i ==> !EqualsIgnoreCase(claims[j].claimType, claimType)
  {
    match FindFirst(claims, (c: Claim) => EqualsIgnoreCase(c.claimType, claimType))
    case None => None
    case Some(c) => Some(c.value)
  }

  function UserFirstName(claims: seq<Claim>): Option<string> { FindFirstValue(claims, GivenName) }

  function UserLastName(claims: seq<Claim>): Option<string> { FindFirstValue(claims, Surname) }

  function UserPrincipalName(claims: seq<Claim>): Option<string> { FindFirstValue(claims, Upn) }

  function UserRole(claims: seq<Claim>): Option<string> { FindFirstValue(claims, Role) }

  function UserFullName(claims: seq<Claim>): Option<string> { FindFirstValue(claims, Name) }

  /** A value that can serve as an e-mail address: not blank, and holding '@'. */
  predicate LooksLikeEmail(s: Option<string>) {
    !IsNullOrWhiteSpace(s) && '@' in s.value
  }

  predicate IsNameClaim(c: Claim) {
    EndsWith(c.claimType, "/name")
  }

  /** `UserEmail`: the e-mail claim when it is not blank; else the UPN when
      it looks like an address; else the value of the first claim whose type
      ends in "/name" when it looks like an address; else null. */
  function UserEmail(claims: seq<Claim>): (r: Option<string>)
    ensures r.Some? ==> !IsNullOrWhiteSpace(r)
    ensures r.Some? ==> exists i :: 0 <= i < |claims| && claims[i].value == r.value
  {
    var email := FindFirstValue(claims, Email);
    if !IsNullOrWhiteSpace(email) then email
    else
      var principalName := UserPrincipalName(claims);
      if !IsNullOrWhiteSpace(principalName) && '@' in principalName.value then principalName
      else
        var nameClaim := FindFirst(claims, IsNameClaim);
        var name := if nameClaim.Some? then Some(nameClaim.value.value) else None;
        if !IsNullOrWhiteSpace(name) && '@' in name.value then name else None
  }

  /** The fallback chain, step by step: each source is used exactly when every
      earlier one failed and it qualifies; only the first "/name" claim is
      looked at, so a later one never supplies the address. */
  lemma UserEmailChain(claims: seq<Claim>)
    ensures !IsNullOrWhiteSpace(FindFirstValue(claims, Email)) ==>
              UserEmail(claims) == FindFirstValue(claims, Email)
    ensures IsNullOrWhiteSpace(FindFirstValue(claims, Email)) && LooksLikeEmail(UserPrincipalName(claims)) ==>
              UserEmail(claims) == UserPrincipalName(claims)
    ensures IsNullOrWhiteSpace(FindFirstValue(claims, Email)) && !LooksLikeEmail(UserPrincipalName(claims)) ==>
              UserEmail(claims) ==
                (if FindFirst(claims, IsNameClaim).Some? && LooksLikeEmail(Some(FindFirst(claims, IsNameClaim).value.value))
                 then Some(FindFirst(claims, IsNameClaim).value.value)
                 else None)
    ensures UserEmail(claims).Some? ==> LooksLikeEmail(UserEmail(claims)) || !IsNullOrWhiteSpace(FindFirstValue(claims, Email))
  {
  }

  /** Without any e-mail, UPN or "/name" claim there is no address. */
  lemma UserEmailNone(claims: seq<Claim>)
    requires forall i :: 0 <= i < |claims| ==>
               !EqualsIgnoreCase(claims[i].claimType, Email) && !EqualsIgnoreCase(claims[i].claimType, Upn)
               && !IsNameClaim(claims[i])
    ensures UserEmail(claims).None?
  {
  }

  /** `UserSortableName`: "last, first", a missing name rendered empty. */
  function UserSortableName(claims: seq<Claim>): (r: string)
    ensures StartsWith(r, UserLastName(claims).GetOr(""))
    ensures EndsWith(r, UserFirstName(claims).GetOr(""))
    ensures |r| == |UserLastName(claims).GetOr("")| + 2 + |UserFirstName(claims).GetOr("")|
    ensures r[|UserLastName(claims).GetOr("")|..|UserLastName(claims).GetOr("")| + 2] == ", "
  {
    UserLastName(claims).GetOr("") + ", " + UserFirstName(claims).GetOr("")
  }

  /** When the surname holds no comma, the sortable name splits at its first
      comma into the surname and " " followed by the given name. */
  lemma UserSortableNameSplits(claims: seq<Claim>)
    requires ',' !in UserLastName(claims).GetOr("")
    ensures var r := UserSortableName(claims);
            var parts := Split(r, ',');
            |parts| >= 2 && parts[0] == UserLastName(claims).GetOr("")
  {
    var last := UserLastName(claims).GetOr("");
    var first := UserFirstName(claims).GetOr("");
    SplitFirstPiece(last, " " + first, ',');
    CommaThenSpace(last, first);
  }

  lemma CommaThenSpace(last: string, first: string)
    ensures last + ", " + first == last + [','] + (" " + first)
  {
    assert ", " == [','] + " ";
  }

  /** The first piece of a split is the text before the first separator. */
  lemma {:induction false} SplitFirstPiece(a: string, b: string, c: char)
    requires c !in a
    ensures |Split(a + [c] + b, c)| >= 2 && Split(a + [c] + b, c)[0] == a
    decreases |b|
  {
    if b == [] {
      assert a + [c] + b == a + [c];
      assert (a + [c])[..|a|] == a;
      SplitNoSeparator(a, c);
    } else {
      var b' := b[..|b| - 1];
      SplitFirstPiece(a, b', c);
      assert (a + [c] + b)[..|a + [c] + b| - 1] == a + [c] + b';
    }
  }
}
