/**
 * The profile-completion page: it loads the signed-in user's profile, leaves
 * for the main tabs when the profile already has a name or an email, and
 * otherwise lets the user fill in first name, last name and email and submit
 * them.
 *
 * The page's React state becomes the fields of a class. Each awaited call to
 * the API is one step whose outcome is passed in. The ghost `calls` trace
 * records, in order, the calls the page makes to the API, the auth state and
 * the router, together with every `setLoading`, so that the contracts can say
 * which calls happen while `loading` is raised.
 */
module CompleteProfile {
  import opened Wrappers
  import opened EmailValidation

  /** A user record as the API and the auth state hold it; any field may be
      missing. */
  datatype UserProfile = UserProfile(firstName: Option<string>, lastName: Option<string>, email: Option<string>)

  /** How an awaited API call ends: resolved with a value, or rejected. */
  datatype Outcome<T> = Resolved(value: T) | Rejected

  /** A call the page makes to one of its collaborators, or a write of its
      `loading` flag. */
  datatype Call =
    | SetLoading(on: bool)                  // setLoading(on)
    | GetProfile                            // api.user.getProfile()
    | UpdateProfile(payload: UserProfile)   // api.user.updateProfile(payload)
    | UpdateUser(user: UserProfile)         // updateUser(user), from the auth hook
    | Replace(route: string)                // router.replace(route)

  /** The per-field error messages shown under the inputs; "" means no error. */
  datatype Errors = Errors(firstName: string, lastName: string, email: string)

  const NoErrors: Errors := Errors("", "", "")

  /** The route of the main application. */
  const TabsRoute: string := "/(tabs)"

  /** JavaScript truthiness of an optional string: present and not empty. */
  predicate Filled(f: Option<string>) {
    f.Some? && f.value != ""
  }

  /** `f || ''`: the field's text, or "" when it is missing. */
  function TextOf(f: Option<string>): (r: string)
    ensures r != "" <==> Filled(f)
    ensures Filled(f) ==> r == f.value
  {
    if f.Some? then f.value else ""
  }

  /** `s || undefined`: an empty string becomes a missing field. */
  function OrAbsent(s: string): (r: Option<string>)
    ensures r.None? <==> s == ""
    ensures r.Some? ==> r.value == s
  {
    if s == "" then None else Some(s)
  }

  /** Reading a field back out of `OrAbsent` gives the original string. */
  lemma TextOfOrAbsent(s: string)
    ensures TextOf(OrAbsent(s)) == s
  {
  }

  /** The completeness test: a profile is complete iff at least one of its
      three fields is a non-empty string. */
  predicate IsComplete(p: UserProfile): (r: bool)
    ensures r <==> TextOf(p.firstName) != "" || TextOf(p.lastName) != "" || TextOf(p.email) != ""
  {
    Filled(p.firstName) || Filled(p.lastName) || Filled(p.email)
  }

  /** An incomplete profile has "" as the text of every field. */
  lemma IncompleteIsBlank(p: UserProfile)
    requires !IsComplete(p)
    ensures TextOf(p.firstName) == "" && TextOf(p.lastName) == "" && TextOf(p.email) == ""
  {
  }

  /** The argument of `updateProfile`: each draft field, with "" sent as
      missing and any other string, whitespace included, sent unchanged. */
  function Payload(firstName: string, lastName: string, email: string): (p: UserProfile)
    ensures p.firstName.None? <==> firstName == ""
    ensures p.lastName.None? <==> lastName == ""
    ensures p.email.None? <==> email == ""
    ensures p.firstName.Some? ==> p.firstName.value == firstName
    ensures p.lastName.Some? ==> p.lastName.value == lastName
    ensures p.email.Some? ==> p.email.value == email
  {
    UserProfile(OrAbsent(firstName), OrAbsent(lastName), OrAbsent(email))
  }

  /** The draft can be read back from the payload, and the payload counts as a
      complete profile iff some draft field is non-empty. */
  lemma PayloadRoundTrip(firstName: string, lastName: string, email: string)
    ensures var p := Payload(firstName, lastName, email);
      TextOf(p.firstName) == firstName && TextOf(p.lastName) == lastName && TextOf(p.email) == email
    ensures IsComplete(Payload(firstName, lastName, email)) <==>
      firstName != "" || lastName != "" || email != ""
  {
  }

  /** A first name and an email with no last name: the last name is left out
      of the payload and the email passes validation. */
  lemma PayloadExample()
    ensures Payload("Ali", "", "ali@example.com") == UserProfile(Some("Ali"), None, Some("ali@example.com"))
    ensures ValidateEmail("ali@example.com") == ""
  {
    AcceptsExample();
  }

  /** The fields of the user held by the auth hook; none when no one is
      signed in (`user?.field`). */
  function AuthFields(user: Option<UserProfile>): (r: UserProfile)
    ensures user.Some? ==> r == user.value
    ensures user.None? ==> !IsComplete(r) && r.firstName.None? && r.lastName.None? && r.email.None?
  {
    if user.Some? then user.value else UserProfile(None, None, None)
  }

  /** The page component and its state. */
  class CompleteProfilePage {
    var firstName: string
    var lastName: string
    var email: string
    var errors: Errors
    var loading: bool
    var initialLoading: bool

    /** Calls made to the API, the auth state and the router, and writes of
        `loading`, in order. */
    ghost var calls: seq<Call>

    /** No code path gives the name fields an error, and between events
        `loading` is false: a submit lowers it before it returns. */
    ghost predicate Valid()
      reads this
    {
      errors.firstName == "" && errors.lastName == "" && !loading
    }

    /** The first render: the draft starts from the signed-in user, the
        spinner is shown and nothing has been called. */
    constructor (user: Option<UserProfile>)
      ensures Valid()
      ensures firstName == TextOf(AuthFields(user).firstName)
      ensures lastName == TextOf(AuthFields(user).lastName)
      ensures email == TextOf(AuthFields(user).email)
      ensures errors == NoErrors && !loading && initialLoading
      ensures calls == []
    {
      firstName := TextOf(AuthFields(user).firstName);
      lastName := TextOf(AuthFields(user).lastName);
      email := TextOf(AuthFields(user).email);
      errors := NoErrors;
      loading := false;
      initialLoading := true;
      calls := [];
    }

    /** `checkUserProfile`, run once on mount: fetch the profile; leave for the
        tabs when it is complete, otherwise copy it into the draft; on a
        rejected fetch keep the draft. The spinner is cleared in every case. */
    method CheckUserProfile(fetched: Outcome<UserProfile>)
      requires Valid()
      modifies this
      ensures Valid()
      ensures !initialLoading
      ensures errors == old(errors) && loading == old(loading)
      ensures fetched.Resolved? && IsComplete(fetched.value) ==>
        calls == old(calls) + [GetProfile, Replace(TabsRoute)]
      ensures !(fetched.Resolved? && IsComplete(fetched.value)) ==>
        calls == old(calls) + [GetProfile]
      ensures fetched.Resolved? && !IsComplete(fetched.value) ==>
        firstName == TextOf(fetched.value.firstName) && lastName == TextOf(fetched.value.lastName) &&
        email == TextOf(fetched.value.email) &&
        firstName == "" && lastName == "" && email == ""
      ensures !(fetched.Resolved? && !IsComplete(fetched.value)) ==>
        firstName == old(firstName) && lastName == old(lastName) && email == old(email)
    {
      calls := calls + [GetProfile];
      match fetched {
        case Resolved(userData) =>
          if IsComplete(userData) {
            calls := calls + [Replace(TabsRoute)];
          } else {
            firstName := TextOf(userData.firstName);
            lastName := TextOf(userData.lastName);
            email := TextOf(userData.email);
            IncompleteIsBlank(userData);
          }
        case Rejected =>
          // the error is only logged
      }
      initialLoading := false;
    }

    /** `onChangeText` of the first-name input. */
    method SetFirstName(text: string)
      requires Valid()
      modifies this`firstName
      ensures Valid() && firstName == text
    {
      firstName := text;
    }

    /** `onChangeText` of the last-name input. */
    method SetLastName(text: string)
      requires Valid()
      modifies this`lastName
      ensures Valid() && lastName == text
    {
      lastName := text;
    }

    /** `onChangeText` of the email input. */
    method SetEmail(text: string)
      requires Valid()
      modifies this`email
      ensures Valid() && email == text
    {
      email := text;
    }

    /** `handleSubmit`: reset the errors and validate the email; on an invalid
        email show the message and stop, with no call and no write of
        `loading`. Otherwise raise `loading`, send the payload, and when the
        update resolves pass the returned profile to the auth state before
        leaving for the tabs; all of this happens while `loading` is raised,
        and `loading` is lowered last in every case. */
    method HandleSubmit(update: Outcome<UserProfile>)
      requires Valid()
      modifies this
      ensures Valid()
      ensures firstName == old(firstName) && lastName == old(lastName) && email == old(email)
      ensures initialLoading == old(initialLoading)
      ensures errors == Errors("", "", ValidateEmail(email))
      ensures ValidateEmail(email) != "" ==> calls == old(calls)
      ensures ValidateEmail(email) == "" && update.Resolved? ==>
        calls == old(calls) +
          [SetLoading(true), UpdateProfile(Payload(firstName, lastName, email)),
           UpdateUser(update.value), Replace(TabsRoute), SetLoading(false)]
      ensures ValidateEmail(email) == "" && update.Rejected? ==>
        calls == old(calls) +
          [SetLoading(true), UpdateProfile(Payload(firstName, lastName, email)), SetLoading(false)]
    {
      errors := NoErrors;
      var emailError := ValidateEmail(email);
      if emailError != "" {
        errors := errors.(email := emailError);
        return;
      }
      loading := true;
      calls := calls + [SetLoading(true)];
      calls := calls + [UpdateProfile(Payload(firstName, lastName, email))];
      match update {
        case Resolved(updatedUser) =>
          calls := calls + [UpdateUser(updatedUser)];
          calls := calls + [Replace(TabsRoute)];
        case Rejected =>
          // the error is only logged
      }
      loading := false;
      calls := calls + [SetLoading(false)];
    }
  }

  /** A user with a blank profile fills in a first name and an acceptable
      email (such as "Ali" and "ali@example.com", see PayloadExample) and
      submits; the payload omits the last name, the auth state receives the
      server's profile, and the page leaves for the tabs. */
  method BlankProfileScenario(first: string, mail: string, saved: UserProfile)
    requires first != "" && mail != "" && ValidateEmail(mail) == ""
  {
    var page := new CompleteProfilePage(None);
    page.CheckUserProfile(Resolved(UserProfile(None, Some(""), None)));
    assert page.calls == [GetProfile] && !page.initialLoading;
    page.SetFirstName(first);
    page.SetEmail(mail);
    page.HandleSubmit(Resolved(saved));
    assert page.calls == [GetProfile, SetLoading(true), UpdateProfile(UserProfile(Some(first), None, Some(mail))),
      UpdateUser(saved), Replace(TabsRoute), SetLoading(false)];
    assert page.errors == NoErrors && !page.loading;
  }

  /** A submit with a malformed email shows the message and calls nothing. */
  method InvalidEmailScenario()
  {
    var page := new CompleteProfilePage(Some(UserProfile(Some("Ali"), None, Some("ali"))));
    page.CheckUserProfile(Rejected);
    assert page.email == "ali";
    RejectsWithoutAt("ali");
    page.HandleSubmit(Rejected);
    assert page.calls == [GetProfile];
    assert page.errors == Errors("", "", InvalidEmailMessage);
  }
}
