/**
  The email record the web client receives from `api/email.lua` and keeps in
  `full_emails`, and the login part of `ponymail_preferences`.  JavaScript
  values that may be missing are `Option`s.
 */
module Records {
  import opened Common
  import opened Text

  datatype Attachment = Attachment(hash: string, filename: string, size: nat)

  datatype EmailRecord = EmailRecord(
    mid: string,
    messageId: Option<string>,
    subject: string,
    from: string,
    date: string,
    body: string,
    listRaw: string,
    epoch: int,
    private: Option<bool>,
    attachments: Option<seq<Attachment>>,
    gravatar: string)

  datatype Credentials = Credentials(email: string, admin: bool)

  /** `ponymail_preferences.login`: present once the preferences are loaded. */
  datatype Login = Login(credentials: Option<Credentials>, alternates: Option<seq<string>>)

  /** `login && login.credentials`: somebody is signed in. */
  predicate LoggedIn(login: Option<Login>) {
    login.Some? && login.value.credentials.Some?
  }

  /** What string concatenation and `encodeURIComponent` make of a field that may be missing. */
  function JsText(x: Option<string>): (r: string)
    ensures x.Some? ==> r == x.value
  {
    if x.Some? then x.value else "undefined"
  }

  /**
    The posting address of a list: every angle bracket removed, then the first
    `.` turned into `@` (`list_raw.replace(/[<>]/g, '').replace('.', '@', 1)`;
    JavaScript ignores the third argument).
   */
  function ListAddress(listRaw: string): (r: string)
    ensures '<' !in r && '>' !in r
  {
    var s := RemoveAngles(listRaw);
    var r := ReplaceFirst(s, '.', '@');
    forall i | 0 <= i < |r|
      ensures !IsAngle(r[i])
    {
      ReplaceFirstPointwise(s, '.', '@', i);
    }
    r
  }
}
