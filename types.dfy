/** The records shared by the client and the server (app/lib/types.ts):
    a link entry, the recognised websites, and the sign-up and login
    validation schemas. */
module Types {

  /** The recognised platforms; the `link` table stores them as the
      enumerated SQL type `valid_website`. */
  datatype Website = GitHub | FrontendMentor | Twitter | LinkedIn | YouTube

  /** One entry of an owner's link list as the client holds it. A positive
      id was assigned by the store; a negative id was minted by the client
      for an entry that has not been saved yet. */
  datatype UserLink = UserLink(id: int, website: Website, username: string, position: int)

  /** What an entry is apart from where it stands in the list. */
  datatype LinkContent = LinkContent(id: int, website: Website, username: string)

  function ContentOf(l: UserLink): LinkContent {
    LinkContent(l.id, l.website, l.username)
  }

  /** The list with positions forgotten: the same entries, in the same order. */
  function Contents(links: seq<UserLink>): (r: seq<LinkContent>)
    ensures |r| == |links|
    ensures forall i :: 0 <= i < |links| ==> r[i] == ContentOf(links[i])
  {
    seq(|links|, i requires 0 <= i < |links| => ContentOf(links[i]))
  }

  function Ids(links: seq<UserLink>): (r: seq<int>)
    ensures |r| == |links|
    ensures forall i :: 0 <= i < |links| ==> r[i] == links[i].id
  {
    seq(|links|, i requires 0 <= i < |links| => links[i].id)
  }

  predicate DistinctIds(links: seq<UserLink>) {
    forall i, j :: 0 <= i < j < |links| ==> links[i].id != links[j].id
  }

  // ---------------------------------------------------------------------
  // Sign-up and login schemas
  // ---------------------------------------------------------------------

  /** The fields of the sign-up form once they are present as strings. */
  datatype SignUpForm = SignUpForm(email: string, password: string, confirmPassword: string)

  datatype LoginForm = LoginForm(email: string, password: string)

  /** A validation issue: the path of the field it is attached to and its message. */
  datatype Issue = Issue(path: seq<string>, message: string)

  const MinPasswordLength: nat := 8
  const InvalidEmailMessage := "Please enter a valid email"
  const ShortPasswordMessage := "Password should be at least 8 characters long"
  const MismatchMessage := "Passwords don't match"

  /** The e-mail check is the validation library's own syntax rule; it is
      a parameter `isEmail` here and nothing is assumed about it. */
  function EmailIssues(email: string, isEmail: string -> bool): (r: seq<Issue>)
    ensures r == [] <==> isEmail(email)
    ensures r != [] ==> r == [Issue(["email"], InvalidEmailMessage)]
  {
    if isEmail(email) then [] else [Issue(["email"], InvalidEmailMessage)]
  }

  /** The length JavaScript reports for a string: its number of UTF-16
      code units, where a character beyond U+FFFF takes two. */
  function Utf16Length(s: string): (n: nat)
    ensures |s| <= n <= 2 * |s|
  {
    if s == [] then 0
    else (if s[0] as int > 0xFFFF then 2 else 1) + Utf16Length(s[1..])
  }

  /** On the Basic Multilingual Plane the reported length is the number
      of characters. */
  lemma {:induction false} Utf16LengthOfBmp(s: string)
    requires forall i :: 0 <= i < |s| ==> s[i] as int <= 0xFFFF
    ensures Utf16Length(s) == |s|
  {
    if s != [] {
      assert s[0] as int <= 0xFFFF;
      Utf16LengthOfBmp(s[1..]);
    }
  }

  /** A password field must report a length of at least `MinPasswordLength`. */
  function MinLengthIssues(field: string, value: string): (r: seq<Issue>)
    ensures r == [] <==> Utf16Length(value) >= MinPasswordLength
    ensures r != [] ==> r == [Issue([field], ShortPasswordMessage)]
  {
    if Utf16Length(value) >= MinPasswordLength then [] else [Issue([field], ShortPasswordMessage)]
  }

  /** Four emoji make a long enough password: each counts twice. */
  lemma FourEmojiPasswordIsLongEnough()
    ensures |"\U{1F600}\U{1F600}\U{1F600}\U{1F600}"| == 4
    ensures MinLengthIssues("password", "\U{1F600}\U{1F600}\U{1F600}\U{1F600}") == []
  {
    var s := "\U{1F600}\U{1F600}\U{1F600}\U{1F600}";
    assert Utf16Length(s[3..]) == 2;
    assert Utf16Length(s[2..]) == 4 by { assert s[2..][1..] == s[3..]; }
    assert Utf16Length(s[1..]) == 6 by { assert s[1..][1..] == s[2..]; }
  }

  /** The object schema without the refinement: its fields are checked in
      declaration order and every failing field contributes its issue. */
  function BaseSignUpIssues(form: SignUpForm, isEmail: string -> bool): (r: seq<Issue>)
    ensures r == [] <==>
      isEmail(form.email) && Utf16Length(form.password) >= MinPasswordLength
      && Utf16Length(form.confirmPassword) >= MinPasswordLength
  {
    EmailIssues(form.email, isEmail)
    + MinLengthIssues("password", form.password)
    + MinLengthIssues("confirmPassword", form.confirmPassword)
  }

  /** The sign-up schema: the object schema refined by the requirement that
      both passwords are equal. No field can abort the object parse once
      all three are strings, so the refinement is always evaluated and its
      issue is added after the field issues. */
  function SignUpIssues(form: SignUpForm, isEmail: string -> bool): (r: seq<Issue>)
    ensures r == [] <==>
      isEmail(form.email) && Utf16Length(form.password) >= MinPasswordLength
      && Utf16Length(form.confirmPassword) >= MinPasswordLength
      && form.password == form.confirmPassword
    ensures Utf16Length(form.password) < MinPasswordLength ==>
      Issue(["password"], ShortPasswordMessage) in r
    ensures Utf16Length(form.confirmPassword) < MinPasswordLength ==>
      Issue(["confirmPassword"], ShortPasswordMessage) in r
    ensures form.password != form.confirmPassword <==>
      Issue(["confirmPassword"], MismatchMessage) in r
  {
    BaseSignUpIssues(form, isEmail)
    + (if form.password == form.confirmPassword then []
       else [Issue(["confirmPassword"], MismatchMessage)])
  }

  /** The login schema is the object schema with `confirmPassword` omitted,
      and it has no refinement. */
  function LoginIssues(form: LoginForm, isEmail: string -> bool): (r: seq<Issue>)
    ensures r == [] <==> isEmail(form.email) && Utf16Length(form.password) >= MinPasswordLength
    ensures forall issue :: issue in r ==> issue.path != ["confirmPassword"]
  {
    EmailIssues(form.email, isEmail) + MinLengthIssues("password", form.password)
  }

  /** `.omit` of one field: the issues not attached to `path`, in order. */
  function IssuesOutside(issues: seq<Issue>, path: seq<string>): seq<Issue>
  {
    if issues == [] then []
    else (if issues[0].path == path then [] else [issues[0]]) + IssuesOutside(issues[1..], path)
  }

  /** Omitting a path keeps exactly the issues attached elsewhere. */
  lemma {:induction false} IssuesOutsideSpec(issues: seq<Issue>, path: seq<string>)
    ensures forall issue :: issue in IssuesOutside(issues, path) <==> issue in issues && issue.path != path
  {
    if issues != [] {
      IssuesOutsideSpec(issues[1..], path);
      assert issues == [issues[0]] + issues[1..];
    }
  }

  /** Logging in checks exactly what signing up checks of the e-mail and the
      password, whatever the confirmation holds: the login issues of a form
      are its sign-up object issues minus those about `confirmPassword`. */
  lemma LoginIsSignUpWithoutConfirmation(form: SignUpForm, isEmail: string -> bool)
    ensures LoginIssues(LoginForm(form.email, form.password), isEmail)
         == IssuesOutside(BaseSignUpIssues(form, isEmail), ["confirmPassword"])
  {
    var e := EmailIssues(form.email, isEmail);
    var p := MinLengthIssues("password", form.password);
    var c := MinLengthIssues("confirmPassword", form.confirmPassword);
    IssuesOutsideConcat(e, p + c, ["confirmPassword"]);
    IssuesOutsideConcat(p, c, ["confirmPassword"]);
    assert e + p + c == e + (p + c);
    IssuesOutsideShort(e, ["confirmPassword"]);
    IssuesOutsideShort(p, ["confirmPassword"]);
    IssuesOutsideShort(c, ["confirmPassword"]);
    assert IssuesOutside(e, ["confirmPassword"]) == e;
    assert IssuesOutside(p, ["confirmPassword"]) == p;
    assert IssuesOutside(c, ["confirmPassword"]) == [];
  }

  lemma IssuesOutsideShort(s: seq<Issue>, path: seq<string>)
    requires |s| <= 1
    ensures IssuesOutside(s, path) == if s == [] || s[0].path == path then [] else s
  {
    if s != [] {
      assert s[1..] == [];
    }
  }

  lemma {:induction false} IssuesOutsideConcat(a: seq<Issue>, b: seq<Issue>, path: seq<string>)
    ensures IssuesOutside(a + b, path) == IssuesOutside(a, path) + IssuesOutside(b, path)
  {
    if a != [] {
      assert (a + b)[1..] == a[1..] + b;
      IssuesOutsideConcat(a[1..], b, path);
    } else {
      assert a + b == b;
    }
  }
}
