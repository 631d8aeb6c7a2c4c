/** `CreateUserDTO`: the `@Pattern` check on `userType` and the conversion
    `toUser` into a domain `User`. */
module CreateUser {
  import opened Wrappers
  import opened Text

  datatype UserType = Landlord | Tenant | Analyst

  /** The constant names `UserType.valueOf` accepts. */
  function Name(t: UserType): string {
    match t
    case Landlord => "LANDLORD"
    case Tenant => "TENANT"
    case Analyst => "ANALYST"
  }

  /** `UserType.valueOf(name)`: the constant with exactly that name, or none
      (an `IllegalArgumentException`). */
  function ValueOf(name: string): (r: Option<UserType>)
    ensures r.Some? ==> Name(r.value) == name
  {
    if name == "LANDLORD" then Some(Landlord)
    else if name == "TENANT" then Some(Tenant)
    else if name == "ANALYST" then Some(Analyst)
    else None
  }

  /** Every constant is found under its own name. */
  lemma ValueOfName(t: UserType)
    ensures ValueOf(Name(t)) == Some(t)
  {
  }

  /** A tenant specialty reference; only its id is ever set here. */
  datatype TenantSpecialty = TenantSpecialty(id: int)

  /** The domain `User`; every field may be null. */
  datatype User = User(
    id: Option<int>,
    fullName: Option<string>,
    email: Option<string>,
    firebaseUid: Option<string>,
    pfpPath: Option<string>,
    phoneNumber: Option<string>,
    createdAt: Option<Instant>,
    userType: Option<UserType>,
    tenantSpecialty: Option<TenantSpecialty>,
    tenantLicensePath: Option<string>,
    averageRating: Option<real>,
    stripeCustomerId: Option<string>,
    defaultPaymentMethod: Option<string>,
    bio: Option<string>)

  /** The form fields `toUser` reads. */
  datatype CreateUserDto = CreateUserDto(
    fullName: Option<string>,
    email: Option<string>,
    phoneNumber: Option<string>,
    userType: Option<string>,
    tenantSpecialtyId: Option<int>)

  // ----- the @Pattern check -----

  /** A regular expression made only of plain literals joined by `|`, given
      by its alternatives; its text is `Join(alternatives, '|')`. */
  type Alternation = seq<string>

  /** `String.matches`: the whole value equals one of the alternatives. */
  predicate FullMatch(p: Alternation, s: string) {
    s in p
  }

  /** Bean Validation skips a null value; `@NotNull` is a separate check. */
  predicate PatternValid(p: Alternation, userType: Option<string>) {
    userType.Some? ==> FullMatch(p, userType.value)
  }

  /** The regular expression on `userType`, as written. */
  const UserTypePattern: Alternation := [" LANDLORD", "TENANT", "ANALYST"]

  /** Cutting the annotation's text at `|` gives back these alternatives. */
  lemma UserTypePatternText()
    ensures Split(" LANDLORD|TENANT|ANALYST", '|') == UserTypePattern
  {
    var alts := UserTypePattern;
    assert Join(alts, '|') == " LANDLORD|TENANT|ANALYST";
    assert '|' !in alts[0] && '|' !in alts[1] && '|' !in alts[2];
    SplitJoin(alts, '|');
  }

  lemma LeadingSpaceName()
    ensures UserTypePattern[0] == [' '] + Name(Landlord)
  {
  }

  /** "LANDLORD", the name of a constant, fails the check as written, while
      " LANDLORD" passes. */
  lemma LandlordRejected()
    ensures !FullMatch(UserTypePattern, Name(Landlord))
    ensures FullMatch(UserTypePattern, [' '] + Name(Landlord))
  {
    LeadingSpaceName();
    assert |Name(Landlord)| != |UserTypePattern[0]|;
    assert Name(Landlord)[0] != UserTypePattern[1][0];
    assert Name(Landlord)[0] != UserTypePattern[2][0];
  }

  /** The pattern with the stray space removed. */
  const FixedUserTypePattern: Alternation := ["LANDLORD", "TENANT", "ANALYST"]

  /** The corrected pattern accepts exactly the names of the constants. */
  lemma FixedUserTypeAccepted(s: string)
    ensures FullMatch(FixedUserTypePattern, s) <==> exists t :: Name(t) == s
  {
    if s in FixedUserTypePattern {
      if s == FixedUserTypePattern[0] {
        assert Name(Landlord) == s;
      } else if s == FixedUserTypePattern[1] {
        assert Name(Tenant) == s;
      } else {
        assert Name(Analyst) == s;
      }
    }
    if exists t :: Name(t) == s {
      var t :| Name(t) == s;
      assert s == FixedUserTypePattern[if t == Landlord then 0 else if t == Tenant then 1 else 2];
    }
  }

  // ----- trim -----

  /** `s` without its leading characters `<= ' '`. */
  function TrimStart(s: string): (r: string)
    ensures |r| <= |s| && r == s[|s| - |r|..]
    ensures forall k :: 0 <= k < |s| - |r| ==> s[k] <= ' '
    ensures |r| > 0 ==> r[0] > ' '
  {
    if |s| > 0 && s[0] <= ' ' then TrimStart(s[1..]) else s
  }

  /** `s` without its trailing characters `<= ' '`. */
  function TrimEnd(s: string): (r: string)
    ensures |r| <= |s| && r == s[..|r|]
    ensures forall k :: |r| <= k < |s| ==> s[k] <= ' '
    ensures |r| > 0 ==> r[|r| - 1] > ' '
  {
    if |s| > 0 && s[|s| - 1] <= ' ' then TrimEnd(s[..|s| - 1]) else s
  }

  /** `String.trim()`: both ends cut, the middle kept as it was. */
  function Trim(s: string): (r: string)
    ensures |r| > 0 ==> r[0] > ' ' && r[|r| - 1] > ' '
  {
    TrimEnd(TrimStart(s))
  }

  /** A string that starts and ends with a visible character is its own
      trim. */
  lemma TrimFixed(s: string)
    requires |s| > 0 ==> s[0] > ' ' && s[|s| - 1] > ' '
    ensures Trim(s) == s
  {
  }

  lemma TrimIdempotent(s: string)
    ensures Trim(Trim(s)) == Trim(s)
  {
    TrimFixed(Trim(s));
  }

  /** A contiguous piece `r` of `s`, starting at `i`, with only characters
      `<= ' '` around it. */
  predicate Infix(s: string, i: nat, r: string) {
    && i + |r| <= |s| && s[i..i + |r|] == r
    && (forall k :: 0 <= k < i ==> s[k] <= ' ')
    && (forall k :: i + |r| <= k < |s| ==> s[k] <= ' ')
  }

  /** `Trim` keeps a contiguous piece of `s`, starting after the leading
      characters `<= ' '`, and drops only characters `<= ' '` after it. */
  lemma TrimIsInfix(s: string)
    ensures Infix(s, |s| - |TrimStart(s)|, Trim(s))
  {
    var t := TrimStart(s);
    InfixParts(s, t, TrimEnd(t), |s| - |t|);
  }

  lemma InfixParts(s: string, t: string, r: string, i: nat)
    requires i <= |s| && t == s[i..]
    requires forall k :: 0 <= k < i ==> s[k] <= ' '
    requires |r| <= |t| && r == t[..|r|]
    requires forall k :: |r| <= k < |t| ==> t[k] <= ' '
    ensures Infix(s, i, r)
  {
    assert s[i..i + |r|] == s[i..][..|r|];
    forall k | i + |r| <= k < |s|
      ensures s[k] <= ' '
    {
      assert s[k] == t[k - i];
    }
  }

  /** One leading space in front of a visible-ended string is trimmed away. */
  lemma TrimLeadingSpace(x: string)
    requires |x| > 0 && x[0] > ' ' && x[|x| - 1] > ' '
    ensures Trim([' '] + x) == x
  {
    assert ([' '] + x)[1..] == x;
    TrimFixed(x);
  }

  // ----- toUser -----

  /** Why `toUser` throws: a null `userType` (`NullPointerException` on
      `trim`), or a trimmed value that names no constant
      (`IllegalArgumentException` from `valueOf`). */
  datatype ConversionError = NullUserType | NoSuchUserType(name: string)

  /** Every field `toUser` does not set is null. */
  predicate OnlyFormFields(u: User) {
    && u.id.None? && u.firebaseUid.None? && u.pfpPath.None? && u.createdAt.None?
    && u.tenantLicensePath.None? && u.averageRating.None? && u.stripeCustomerId.None?
    && u.defaultPaymentMethod.None? && u.bio.None?
  }

  /** `toUser()`. */
  function ToUser(dto: CreateUserDto): (r: Result<User, ConversionError>)
    ensures dto.userType.None? ==> r == Err(NullUserType)
    ensures dto.userType.Some? ==>
      (r.Ok? <==> exists t :: Name(t) == Trim(dto.userType.value))
    ensures r.Ok? ==>
      && r.value.fullName == dto.fullName
      && r.value.email == dto.email
      && r.value.phoneNumber == dto.phoneNumber
      && r.value.userType.Some?
      && Name(r.value.userType.value) == Trim(dto.userType.value)
      && OnlyFormFields(r.value)
    // the specialty is attached only to tenants, and only when an id came
    ensures r.Ok? ==>
      && (r.value.tenantSpecialty.Some? <==>
            dto.tenantSpecialtyId.Some? && r.value.userType == Some(Tenant))
      && (r.value.tenantSpecialty.Some? ==> r.value.tenantSpecialty.value.id == dto.tenantSpecialtyId.value)
  {
    if dto.userType.None? then Err(NullUserType)
    else
      var name := Trim(dto.userType.value);
      match ValueOf(name)
      case None =>
        assert forall t :: Name(t) != name by {
          forall t ensures Name(t) != name { ValueOfName(t); }
        }
        Err(NoSuchUserType(name))
      case Some(t) =>
        var specialty :=
          if dto.tenantSpecialtyId.Some? && t == Tenant then Some(TenantSpecialty(dto.tenantSpecialtyId.value))
          else None;
        Ok(User(None, dto.fullName, dto.email, None, None, dto.phoneNumber, None,
                Some(t), specialty, None, None, None, None, None))
  }

  /** Every value the pattern as written accepts converts, to the constant
      its trimmed form names. */
  lemma AcceptedConverts(dto: CreateUserDto)
    requires dto.userType.Some? && PatternValid(UserTypePattern, dto.userType)
    ensures ToUser(dto).Ok?
    ensures ValueOf(Trim(dto.userType.value)) == ToUser(dto).value.userType
  {
    var s := dto.userType.value;
    var t: UserType;
    if s == UserTypePattern[0] {
      LeadingSpaceName();
      TrimLeadingSpace(Name(Landlord));
      t := Landlord;
    } else {
      t := if s == UserTypePattern[1] then Tenant else Analyst;
      assert s == Name(t);
      TrimFixed(s);
    }
    ConvertsByName(dto, t);
  }

  /** A value whose trimmed form is a constant's name converts to it. */
  lemma ConvertsByName(dto: CreateUserDto, t: UserType)
    requires dto.userType.Some? && Trim(dto.userType.value) == Name(t)
    ensures ToUser(dto).Ok? && ToUser(dto).value.userType == Some(t)
    ensures ValueOf(Trim(dto.userType.value)) == Some(t)
  {
    ValueOfName(t);
  }

  /** With the corrected pattern, every constant's name is accepted and
      converts to that constant. */
  lemma FixedAcceptedConverts(dto: CreateUserDto, t: UserType)
    requires dto.userType == Some(Name(t))
    ensures PatternValid(FixedUserTypePattern, dto.userType)
    ensures ToUser(dto).Ok? && ToUser(dto).value.userType == Some(t)
  {
    FixedUserTypeAccepted(Name(t));
    TrimFixed(Name(t));
    ConvertsByName(dto, t);
  }

  /** Landlords and analysts never get a tenant specialty, even when an id
      is supplied. */
  lemma NoSpecialtyUnlessTenant(dto: CreateUserDto)
    requires ToUser(dto).Ok? && ToUser(dto).value.userType != Some(Tenant)
    ensures ToUser(dto).value.tenantSpecialty.None?
  {
  }
}
