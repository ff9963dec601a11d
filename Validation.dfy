/** The data-annotation constraints on the three request records, as predicates.
    An absent (null) string field is represented by "": both fail [Required]. */
module Validation {
  import opened Strings
  import opened Dates
  import opened Models

  /** [Required] on a string: not null, empty or whitespace-only, so it holds exactly
      when some character is not whitespace, and never on the empty string. */
  predicate Required(s: string)
    ensures Required(s) <==> exists i :: 0 <= i < |s| && !IsWhiteSpace(s[i])
    ensures Required(s) ==> 1 <= |s|
  {
    !IsNullOrWhiteSpace(s)
  }

  /** [MinLength(min)] and [MaxLength(max)] together. */
  predicate LengthBetween(s: string, min: nat, max: nat) {
    min <= |s| <= max
  }

  /** [EmailAddress]: exactly one '@', which is neither the first nor the last character. */
  predicate IsEmail(s: string)
    ensures IsEmail(s) ==> 3 <= |s| && '@' in s && s[0] != '@' && s[|s| - 1] != '@'
  {
    exists i :: 0 < i < |s| - 1 && s[i] == '@' && forall j :: 0 <= j < |s| && j != i ==> s[j] != '@'
  }

  // UserRegisterRequest

  predicate ValidUserName(s: string) { Required(s) && LengthBetween(s, 2, 64) }

  predicate ValidEmail(s: string) { Required(s) && IsEmail(s) }

  predicate ValidRegisterPassword(s: string) { Required(s) && LengthBetween(s, 8, 256) }

  predicate ValidPersonName(s: string) { Required(s) && LengthBetween(s, 1, 100) }

  /** ModelState.IsValid for a UserRegisterRequest. DateOfBirth and UserRoleId are value
      types, so their [Required] always holds and they take no part. */
  predicate IsValidUserRegisterRequest(r: UserRegisterRequest) {
    && ValidUserName(r.userName)
    && ValidEmail(r.email)
    && ValidRegisterPassword(r.password)
    && ValidPersonName(r.firstName)
    && ValidPersonName(r.lastName)
  }

  // LoginRequest

  predicate ValidLoginPassword(s: string) { Required(s) && 8 <= |s| }

  predicate IsValidLoginRequest(r: LoginRequest) {
    ValidEmail(r.email) && ValidLoginPassword(r.password)
  }

  // BlogPostSaveRequest

  predicate ValidTitle(s: string) { Required(s) && LengthBetween(s, 1, 255) }

  predicate ValidContent(s: string) { Required(s) && LengthBetween(s, 1, 4096) }

  predicate IsValidBlogPostSaveRequest(r: BlogPostSaveRequest) {
    ValidTitle(r.title) && ValidContent(r.content)
  }

  /** A string of n copies of c. */
  function Repeat(c: char, n: nat): (s: string)
    ensures |s| == n && forall i :: 0 <= i < n ==> s[i] == c
  {
    if n == 0 then [] else [c] + Repeat(c, n - 1)
  }

  /** The length bounds of the registration fields, at the boundary lengths. */
  lemma RegisterRequestBoundaries()
    ensures !ValidUserName(Repeat('a', 1)) && ValidUserName(Repeat('a', 2))
    ensures ValidUserName(Repeat('a', 64)) && !ValidUserName(Repeat('a', 65))
    ensures !ValidRegisterPassword(Repeat('a', 7)) && ValidRegisterPassword(Repeat('a', 8))
    ensures ValidRegisterPassword(Repeat('a', 256)) && !ValidRegisterPassword(Repeat('a', 257))
    ensures !ValidPersonName("") && ValidPersonName("a")
    ensures ValidPersonName(Repeat('a', 100)) && !ValidPersonName(Repeat('a', 101))
  {
    assert !IsWhiteSpace('a');
    assert forall n: nat :: n >= 1 ==> Repeat('a', n)[0] == 'a';
  }

  /** The login password needs at least eight characters and has no upper bound. */
  lemma LoginRequestBoundaries()
    ensures !ValidLoginPassword(Repeat('a', 7)) && ValidLoginPassword(Repeat('a', 8))
    ensures forall n: nat :: n >= 8 ==> ValidLoginPassword(Repeat('a', n))
  {
    assert !IsWhiteSpace('a');
    assert forall n: nat :: n >= 1 ==> Repeat('a', n)[0] == 'a';
  }

  /** Title and content bounds, at the boundary lengths. */
  lemma BlogPostRequestBoundaries()
    ensures !ValidTitle("") && ValidTitle("a")
    ensures ValidTitle(Repeat('a', 255)) && !ValidTitle(Repeat('a', 256))
    ensures !ValidContent("") && ValidContent("a")
    ensures ValidContent(Repeat('a', 4096)) && !ValidContent(Repeat('a', 4097))
  {
    assert !IsWhiteSpace('a');
    assert forall n: nat :: n >= 1 ==> Repeat('a', n)[0] == 'a';
  }

  /** A few addresses at the edges of the [EmailAddress] rule. */
  lemma EmailExamples()
    ensures IsEmail("a@b") && IsEmail("alice@x.com")
    ensures !IsEmail("ab") && !IsEmail("@b") && !IsEmail("a@") && !IsEmail("a@@b") && !IsEmail("")
  {
    var short, full, doubled := "a@b", "alice@x.com", "a@@b";
    assert short[1] == '@' && short[0] != '@' && short[2] != '@';
    assert full[5] == '@';
    assert forall j :: 0 <= j < 5 ==> full[j] != '@';
    assert forall j :: 5 < j < |full| ==> full[j] != '@';
    assert doubled[1] == '@' && doubled[2] == '@';
  }

  /** Every field of a registration request is checked: breaking any one field of a
      valid request, and only that field, makes it invalid. */
  lemma RegisterRequestEachFieldChecked(r: UserRegisterRequest)
    requires IsValidUserRegisterRequest(r)
    ensures !IsValidUserRegisterRequest(r.(userName := "a"))
    ensures !IsValidUserRegisterRequest(r.(email := "ab"))
    ensures !IsValidUserRegisterRequest(r.(password := "abcdefg"))
    ensures !IsValidUserRegisterRequest(r.(firstName := " "))
    ensures !IsValidUserRegisterRequest(r.(lastName := Repeat('a', 101)))
  {
  }

  /** Both fields of a login request are checked: breaking either field of a valid
      request makes it invalid. */
  lemma LoginRequestEachFieldChecked(r: LoginRequest)
    requires IsValidLoginRequest(r)
    ensures !IsValidLoginRequest(r.(email := "a@"))
    ensures !IsValidLoginRequest(r.(password := "abcdefg"))
    ensures !IsValidLoginRequest(r.(password := "        "))
  {
  }

  /** Both fields of a post request are checked: breaking either field of a valid
      request makes it invalid. */
  lemma BlogPostRequestEachFieldChecked(r: BlogPostSaveRequest)
    requires IsValidBlogPostSaveRequest(r)
    ensures !IsValidBlogPostSaveRequest(r.(title := ""))
    ensures !IsValidBlogPostSaveRequest(r.(title := Repeat('a', 256)))
    ensures !IsValidBlogPostSaveRequest(r.(content := "\t"))
    ensures !IsValidBlogPostSaveRequest(r.(content := Repeat('a', 4097)))
  {
  }

  /** A field of only whitespace fails [Required], whatever its length. */
  lemma WhitespaceOnlyRejected(s: string)
    requires IsNullOrWhiteSpace(s)
    ensures !ValidUserName(s) && !ValidEmail(s) && !ValidRegisterPassword(s) && !ValidPersonName(s)
    ensures !ValidLoginPassword(s) && !ValidTitle(s) && !ValidContent(s)
  {
  }

  /** Any password accepted at registration is accepted at login, and a longer one
      than registration allows is still accepted at login. */
  lemma RegisterPasswordIsLoginPassword(s: string)
    ensures ValidRegisterPassword(s) ==> ValidLoginPassword(s)
    ensures ValidLoginPassword(Repeat('a', 257)) && !ValidRegisterPassword(Repeat('a', 257))
  {
    assert Repeat('a', 257)[0] == 'a';
  }

  /** The role id and the date of birth play no part in validation. */
  lemma RoleIdAndBirthDateUnchecked(r: UserRegisterRequest, roleId: int, dateOfBirth: DateOnly)
    ensures IsValidUserRegisterRequest(r) <==>
            IsValidUserRegisterRequest(r.(userRoleId := roleId, dateOfBirth := dateOfBirth))
  {
  }
}
