/** The pure helpers of the browser client (public/app.js): the form
    validator, the post preview, and the tests deciding which controls a
    logged-in user is shown. */
module Client {
  import opened Common
  import opened Documents
  import LikeToggle
  import Posts
  import Comments

  /** JavaScript's `\s`: the white-space and line-terminator characters of
      ECMAScript, including the no-break and Unicode space separators. */
  predicate IsSpace(c: char) {
    || c == ' ' || c == '\t' || c == '\n' || c == '\U{B}' || c == '\U{C}' || c == '\r'
    || c == '\U{A0}' || c == '\U{1680}' || ('\U{2000}' <= c && c <= '\U{200A}')
    || c == '\U{2028}' || c == '\U{2029}' || c == '\U{202F}' || c == '\U{205F}'
    || c == '\U{3000}' || c == '\U{FEFF}'
  }

  /** `s[lo..hi]` is a match of `\S+`. */
  ghost predicate NonSpaceRun(s: string, lo: int, hi: int) {
    0 <= lo < hi <= |s| && forall k :: lo <= k < hi ==> !IsSpace(s[k])
  }

  /** `s[i..e]` matches `\S+@\S+\.\S+`, with the "@" at `a` and the "." at `d`. */
  ghost predicate MatchAt(s: string, i: int, a: int, d: int, e: int) {
    && 0 <= i < a < d < e <= |s|
    && s[a] == '@' && s[d] == '.'
    && NonSpaceRun(s, i, a) && NonSpaceRun(s, a + 1, d) && NonSpaceRun(s, d + 1, e)
  }

  /** `/\S+@\S+\.\S+/.test(s)`: the pattern is not anchored, so a match
      anywhere in the string will do. */
  ghost predicate EmailPatternMatches(s: string) {
    exists i, a, d, e :: MatchAt(s, i, a, d, e)
  }

  /** The check the validator runs: an "@" with a non-space before it, then
      a "." with a non-space after it, and only non-spaces (at least one)
      in between. */
  predicate EmailLooksValid(s: string) {
    exists a, d | 0 < a && a + 1 < d && d + 1 < |s| :: LooksValidAt(s, a, d)
  }

  /** The check succeeds with the "@" at `a` and the "." at `d`. */
  predicate LooksValidAt(s: string, a: int, d: int)
    requires 0 < a && a + 1 < d && d + 1 < |s|
  {
    && s[a] == '@' && s[d] == '.'
    && !IsSpace(s[a - 1]) && !IsSpace(s[d + 1])
    && NoSpaceBetween(s, a, d)
  }

  /** No white space strictly between positions `a` and `d`. */
  predicate NoSpaceBetween(s: string, a: int, d: int)
    requires 0 <= a <= d <= |s|
  {
    forall k | a < k < d :: !IsSpace(s[k])
  }

  lemma ShortestMatch(s: string, a: int, d: int)
    requires 0 < a && a + 1 < d && d + 1 < |s| && LooksValidAt(s, a, d)
    ensures MatchAt(s, a - 1, a, d, d + 2)
  {
    assert NonSpaceRun(s, a - 1, a);
    assert NonSpaceRun(s, d + 1, d + 2);
  }

  lemma MatchHasShortest(s: string, i: int, a: int, d: int, e: int)
    requires MatchAt(s, i, a, d, e)
    ensures 0 < a && a + 1 < d && d + 1 < |s| && LooksValidAt(s, a, d)
  {
    assert i <= a - 1 < a;
    assert d + 1 < e;
  }

  lemma LooksValidMatches(s: string)
    requires EmailLooksValid(s)
    ensures EmailPatternMatches(s)
  {
    var a, d :| 0 < a && a + 1 < d && d + 1 < |s| && LooksValidAt(s, a, d);
    ShortestMatch(s, a, d);
  }

  lemma MatchesLooksValid(s: string)
    requires EmailPatternMatches(s)
    ensures EmailLooksValid(s)
  {
    var i, a, d, e :| MatchAt(s, i, a, d, e);
    MatchHasShortest(s, i, a, d, e);
    assert LooksValidAt(s, a, d);
  }

  /** The shortest matches are enough: the check agrees with the pattern. */
  lemma EmailCheckIsPattern(s: string)
    ensures EmailLooksValid(s) <==> EmailPatternMatches(s)
  {
    if EmailLooksValid(s) {
      LooksValidMatches(s);
    }
    if EmailPatternMatches(s) {
      MatchesLooksValid(s);
    }
  }

  /** A form field as the validator receives it. `undefined` and `null` are
      told apart: `formData.name !== undefined` and the strict comparison of
      the two passwords treat them differently. */
  datatype Input = Undefined | Null | Text(text: string)

  /** JavaScript truthiness of a field: a non-empty string. */
  predicate Filled(v: Input) {
    v.Text? && v.text != ""
  }

  datatype FormData = FormData(name: Input, email: Input, password: Input, confirmPassword: Input)

  const NameRequired := "Name is required"
  const EmailRequired := "Email is required"
  const EmailInvalid := "Email is invalid"
  const PasswordRequired := "Password is required"
  const PasswordShort := "Password must be at least 6 characters"
  const PasswordsDiffer := "Passwords do not match"

  /** The six messages the validator can report. */
  const Messages := {NameRequired, EmailRequired, EmailInvalid, PasswordRequired, PasswordShort, PasswordsDiffer}

  /** The position of each message in the validator's fixed check order. */
  function Rank(message: string): nat {
    if message == NameRequired then 0
    else if message == EmailRequired then 1
    else if message == EmailInvalid then 2
    else if message == PasswordRequired then 3
    else if message == PasswordShort then 4
    else 5
  }

  /** The form as the validator accepts it, checked field by field. A login
      form has no `name` field and no `confirmPassword`; both are then
      exempt. */
  ghost predicate Acceptable(f: FormData) {
    && (f.name.Undefined? || Filled(f.name))
    && Filled(f.email) && EmailPatternMatches(f.email.text)
    && Filled(f.password) && |f.password.text| >= 6
    && (f.confirmPassword.Undefined? || f.confirmPassword == f.password)
  }

  /** The six messages are distinct, ranked in check order. */
  lemma RanksInCheckOrder()
    ensures Rank(NameRequired) == 0 && Rank(EmailRequired) == 1 && Rank(EmailInvalid) == 2
    ensures Rank(PasswordRequired) == 3 && Rank(PasswordShort) == 4 && Rank(PasswordsDiffer) == 5
  {
    assert NameRequired[0] != EmailRequired[0];
    assert EmailRequired[9] != EmailInvalid[9];
    assert PasswordRequired[0] !in {NameRequired[0], EmailRequired[0]};
    assert PasswordShort[9] != PasswordRequired[9];
    assert PasswordsDiffer[10] != PasswordRequired[10] && PasswordsDiffer[10] != PasswordShort[10];
  }

  function NameErrors(f: FormData): seq<string> {
    if !Filled(f.name) && !f.name.Undefined? then [NameRequired] else []
  }

  function EmailErrors(f: FormData): seq<string> {
    if !Filled(f.email) then [EmailRequired]
    else if !EmailLooksValid(f.email.text) then [EmailInvalid]
    else []
  }

  function PasswordErrors(f: FormData): seq<string> {
    if !Filled(f.password) then [PasswordRequired]
    else if |f.password.text| < 6 then [PasswordShort]
    else []
  }

  /** `!==` on two fields: different strings, or different kinds of value
      (`undefined !== null`). */
  function ConfirmErrors(f: FormData): seq<string> {
    if !f.confirmPassword.Undefined? && f.password != f.confirmPassword then [PasswordsDiffer] else []
  }

  /** `validateForm`: every failed check adds one message, in the order
      name, email, password, confirmation. */
  function ValidateForm(f: FormData): (errors: seq<string>)
    ensures |errors| <= 4
    ensures forall m :: m in errors ==> m in Messages
    ensures forall i, j :: 0 <= i < j < |errors| ==> Rank(errors[i]) < Rank(errors[j])
  {
    RanksInCheckOrder();
    NameErrors(f) + EmailErrors(f) + PasswordErrors(f) + ConfirmErrors(f)
  }

  /** Each message is reported exactly when its check fails; for email and
      for password at most one of the two messages appears. */
  lemma ValidateFormReports(f: FormData)
    ensures var errors := ValidateForm(f);
            && (NameRequired in errors <==> f.name.Null? || f.name == Text(""))
            && (EmailRequired in errors <==> !Filled(f.email))
            && (EmailInvalid in errors <==> Filled(f.email) && !EmailPatternMatches(f.email.text))
            && (PasswordRequired in errors <==> !Filled(f.password))
            && (PasswordShort in errors <==> Filled(f.password) && |f.password.text| < 6)
            && (PasswordsDiffer in errors <==> !f.confirmPassword.Undefined? && f.password != f.confirmPassword)
  {
    RanksInCheckOrder();
    var given := if f.email.Text? then f.email.text else "";
    EmailCheckIsPattern(given);
    var errors := ValidateForm(f);
    assert errors == NameErrors(f) + EmailErrors(f) + PasswordErrors(f) + ConfirmErrors(f);
    assert forall m :: m in errors <==> m in NameErrors(f) || m in EmailErrors(f) || m in PasswordErrors(f) || m in ConfirmErrors(f);
  }

  /** The form passes, with no message at all, exactly when it is acceptable. */
  lemma ValidateFormAcceptsIff(f: FormData)
    ensures ValidateForm(f) == [] <==> Acceptable(f)
  {
    var given := if f.email.Text? then f.email.text else "";
    EmailCheckIsPattern(given);
  }

  const PreviewLength := 150

  /** The preview line of a post card: `content.substring(0, 150)`, then
      "..." when anything was cut. */
  function Preview(content: string): (p: string)
    ensures |p| <= PreviewLength + 3
    ensures |content| <= PreviewLength ==> p == content
    ensures |content| > PreviewLength ==> |p| == PreviewLength + 3 && p[..PreviewLength] == content[..PreviewLength] && p[PreviewLength..] == "..."
  {
    if |content| > PreviewLength then content[..PreviewLength] + "..." else content
  }

  /** A preview is a prefix of the content, followed by "..." exactly when
      the content was longer than the prefix. */
  lemma PreviewIsPrefixAndMarker(content: string)
    ensures exists k :: 0 <= k <= |content| && (Preview(content) == content[..k] || Preview(content) == content[..k] + "...")
    ensures EndsWithEllipsis(Preview(content)) <==> |content| > PreviewLength
  {
    if |content| > PreviewLength {
      assert Preview(content) == content[..PreviewLength] + "...";
    } else {
      assert Preview(content) == content[..|content|];
    }
  }

  /** The card ends in "..." beyond the 150 kept characters. */
  predicate EndsWithEllipsis(p: string) {
    |p| == PreviewLength + 3 && p[PreviewLength..] == "..."
  }

  /** `currentUser && post.likes.includes(currentUser._id)`: the filled heart. */
  predicate ShowsLiked(current: Option<Id>, likes: seq<Id>) {
    current.Some? && current.value in likes
  }

  /** `currentUser && author._id === currentUser._id`: the edit and delete
      buttons of a post, and the delete button of a comment. */
  predicate ShowsOwnerControls(current: Option<Id>, author: Id) {
    current.Some? && current.value == author
  }

  /** The heart is filled exactly when the next click unlikes. */
  lemma HeartMatchesToggle(u: Id, likes: seq<Id>)
    ensures ShowsLiked(Some(u), likes) <==> u !in LikeToggle.Toggle(likes, u)
    ensures !ShowsLiked(None, likes)
  {
  }

  /** The post controls are shown exactly to the user the server lets edit
      and delete the post. */
  lemma PostControlsMatchServer(s: Store, u: Id, id: Id, body: Posts.PostBody)
    requires id in s.posts
    ensures ShowsOwnerControls(Some(u), s.posts[id].author) <==> Posts.UpdatePost(s, u, id, body).resp.status == 200
    ensures ShowsOwnerControls(Some(u), s.posts[id].author) <==> Posts.DeletePost(s, u, id).resp.status == 200
  {
  }

  /** The comment delete button is shown exactly to the user the server
      lets delete the comment. */
  lemma CommentControlsMatchServer(s: Store, u: Id, id: Id)
    requires id in s.comments
    ensures ShowsOwnerControls(Some(u), s.comments[id].author) <==> Comments.DeleteComment(s, u, id).resp.status == 200
  {
  }
}
