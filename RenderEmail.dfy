/**
  The decisions `webui/js/source/render-email.js` takes when it draws one
  email: the text shown for an attachment's size, the list name, the subject,
  the author name of the chatty layout, whether the private row and the admin
  button appear, and the write into the `full_emails` cache.  The page is
  abstracted to an `EmailView` value; markup, styling, dates and timers are
  not part of it.
 */
module RenderEmail {
  import opened Common
  import opened Text
  import opened UriComponent
  import opened UrlForm
  import opened JsRegex
  import opened Records
  import Composer

  // ---------------------------------------------------------------------------
  // Attachment sizes
  // ---------------------------------------------------------------------------

  /** The quantity a size is shown as: bytes, whole kilobytes, or megabytes in hundredths. */
  datatype ShownSize = Bytes(n: nat) | Kilobytes(n: nat) | Megabytes(hundredths: nat)

  /**
    The unit follows the size's band, and the number shown is the size in
    that unit rounded down: whole bytes below 1024, whole kilobytes below
    1048576, hundredths of a megabyte from there on.
   */
  function Shown(size: nat): (r: ShownSize)
    ensures size < 1024 <==> r.Bytes?
    ensures 1024 <= size < 1048576 <==> r.Kilobytes?
    ensures 1048576 <= size <==> r.Megabytes?
    ensures r.Bytes? ==> r.n == size
    ensures r.Kilobytes? ==> 1 <= r.n < 1024 && r.n * 1024 <= size < (r.n + 1) * 1024
    ensures r.Megabytes? ==> 100 <= r.hundredths && r.hundredths * 1048576 <= size * 100 < (r.hundredths + 1) * 1048576
  {
    if size >= 1048576 then Megabytes(size * 100 / 1048576)
    else if size >= 1024 then Kilobytes(size / 1024)
    else Bytes(size)
  }

  predicate AllDigits(s: string) {
    forall i :: 0 <= i < |s| ==> IsDigit(s[i])
  }

  /**
    How JavaScript writes the number `h / 100`: the whole part, then a point
    and one or two decimals only when the fraction is not zero, with no
    trailing zero.
   */
  function Hundredths(h: nat): string {
    var whole := NatToString(h / 100);
    var f := h % 100;
    if f == 0 then whole
    else if f % 10 == 0 then whole + "." + [DigitChar(f / 10)]
    else whole + "." + [DigitChar(f / 10), DigitChar(f % 10)]
  }

  /** The reference reader of a decimal with at most two decimals, in hundredths. */
  function ReadHundredths(s: string): Option<nat> {
    match IndexOf(s, '.')
    case None =>
      if s != [] && AllDigits(s) then Some(DigitsValue(s) * 100) else None
    case Some(p) => ReadDecimal(s[..p], s[p + 1..])
  }

  /** The whole part and the one or two decimals either side of the point, in hundredths. */
  function ReadDecimal(w: string, f: string): Option<nat> {
    if w != [] && AllDigits(w) && 1 <= |f| <= 2 && AllDigits(f) then
      Some(DigitsValue(w) * 100 + if |f| == 1 then DigitsValue(f) * 10 else DigitsValue(f))
    else None
  }

  lemma DigitsValueOne(d: nat)
    requires d < 10
    ensures DigitsValue([DigitChar(d)]) == d
  {
    assert [DigitChar(d)][..0] == [];
  }

  lemma DigitsValueTwo(a: nat, b: nat)
    requires a < 10 && b < 10
    ensures DigitsValue([DigitChar(a), DigitChar(b)]) == a * 10 + b
  {
    assert [DigitChar(a), DigitChar(b)][..1] == [DigitChar(a)];
    DigitsValueOne(a);
  }

  lemma DigitsNoDot(s: string)
    requires AllDigits(s)
    ensures '.' !in s
  {
    forall i | 0 <= i < |s|
      ensures s[i] != '.'
    {
      assert IsDigit(s[i]);
    }
  }

  /** The megabyte number reads back as the hundredths it was written from, and never ends in a zero decimal. */
  lemma HundredthsReadsBack(h: nat)
    ensures ReadHundredths(Hundredths(h)) == Some(h)
    ensures '.' in Hundredths(h) ==> Hundredths(h)[|Hundredths(h)| - 1] != '0'
  {
    var whole := NatToString(h / 100);
    NatToStringRoundTrip(h / 100);
    DigitsNoDot(whole);
    if h % 100 == 0 {
      assert Hundredths(h) == whole;
    } else {
      HundredthsFraction(h, whole);
    }
  }

  lemma HundredthsFraction(h: nat, whole: string)
    requires h % 100 != 0
    requires whole == NatToString(h / 100) && whole != [] && AllDigits(whole) && '.' !in whole
    requires DigitsValue(whole) == h / 100
    ensures ReadHundredths(Hundredths(h)) == Some(h)
    ensures Hundredths(h)[|Hundredths(h)| - 1] != '0'
  {
    var f := h % 100;
    var frac := if f % 10 == 0 then [DigitChar(f / 10)] else [DigitChar(f / 10), DigitChar(f % 10)];
    assert Hundredths(h) == whole + "." + frac;
    ReadPointed(whole, frac);
    if f % 10 == 0 {
      ReadOneDecimal(whole, f / 10);
    } else {
      ReadTwoDecimals(whole, f / 10, f % 10);
    }
  }

  lemma ReadOneDecimal(whole: string, d: nat)
    requires whole != [] && AllDigits(whole) && d < 10
    ensures ReadDecimal(whole, [DigitChar(d)]) == Some(DigitsValue(whole) * 100 + d * 10)
  {
    DigitsValueOne(d);
  }

  lemma ReadTwoDecimals(whole: string, a: nat, b: nat)
    requires whole != [] && AllDigits(whole) && a < 10 && b < 10
    ensures ReadDecimal(whole, [DigitChar(a), DigitChar(b)]) == Some(DigitsValue(whole) * 100 + a * 10 + b)
  {
    DigitsValueTwo(a, b);
  }

  /** Reading `whole.frac` back: the whole part in hundreds plus the decimals. */
  lemma ReadPointed(whole: string, frac: string)
    requires whole != [] && AllDigits(whole) && '.' !in whole
    requires 1 <= |frac| <= 2 && AllDigits(frac)
    ensures ReadHundredths(whole + "." + frac) == ReadDecimal(whole, frac)
  {
    var s := whole + "." + frac;
    var p := |whole|;
    assert IndexOf(s, '.') == Some(p) by {
      assert s[p] == '.';
      assert s[..p] == whole;
      IndexOfAt(s, '.', p);
    }
    assert s[..p] == whole && s[p + 1..] == frac;
  }

  /** The text after the file name: a space, the number and the unit. */
  function SizeText(sh: ShownSize): string {
    match sh
    case Bytes(n) => " " + NatToString(n) + " bytes"
    case Kilobytes(n) => " " + NatToString(n) + " KB"
    case Megabytes(h) => " " + Hundredths(h) + " MB"
  }

  /** The reference reader of a size text: the unit from the end, the number from the middle. */
  function ReadSizeText(s: string): Option<ShownSize> {
    if |s| >= 7 && s[0] == ' ' && s[|s| - 6..] == " bytes" then
      var d := s[1..|s| - 6];
      if d != [] && AllDigits(d) then Some(Bytes(DigitsValue(d))) else None
    else if |s| >= 4 && s[0] == ' ' && s[|s| - 3..] == " KB" then
      var d := s[1..|s| - 3];
      if d != [] && AllDigits(d) then Some(Kilobytes(DigitsValue(d))) else None
    else if |s| >= 4 && s[0] == ' ' && s[|s| - 3..] == " MB" then
      match ReadHundredths(s[1..|s| - 3])
      case Some(h) => Some(Megabytes(h))
      case None => None
    else None
  }

  /** Every size text reads back as the quantity it shows, so different quantities never look alike. */
  lemma SizeTextReadsBack(sh: ShownSize)
    ensures ReadSizeText(SizeText(sh)) == Some(sh)
  {
    match sh
    case Bytes(n) => BytesTextReadsBack(n);
    case Kilobytes(n) => KilobytesTextReadsBack(n);
    case Megabytes(h) => MegabytesTextReadsBack(h);
  }

  lemma KilobytesTextReadsBack(n: nat)
    ensures ReadSizeText(" " + NatToString(n) + " KB") == Some(Kilobytes(n))
  {
    assert " KB" == [' ', 'K', 'B'];
    UnitTextReadsBack(NatToString(n), 'K');
    NatToStringRoundTrip(n);
  }

  lemma MegabytesTextReadsBack(h: nat)
    ensures ReadSizeText(" " + Hundredths(h) + " MB") == Some(Megabytes(h))
  {
    assert " MB" == [' ', 'M', 'B'] && " KB" != [' ', 'M', 'B'];
    UnitTextReadsBack(Hundredths(h), 'M');
    HundredthsReadsBack(h);
  }

  lemma BytesTextReadsBack(n: nat)
    ensures ReadSizeText(" " + NatToString(n) + " bytes") == Some(Bytes(n))
  {
    var d := NatToString(n);
    var s := " " + d + " bytes";
    assert s[|s| - 6..] == " bytes";
    assert s[1..|s| - 6] == d;
    NatToStringRoundTrip(n);
  }

  lemma UnitTextReadsBack(d: string, u: char)
    requires u == 'K' || u == 'M'
    requires d != []
    ensures var s := " " + d + [' ', u, 'B'];
            && !(|s| >= 7 && s[0] == ' ' && s[|s| - 6..] == " bytes")
            && |s| >= 4 && s[0] == ' ' && s[|s| - 3..] == [' ', u, 'B'] && s[1..|s| - 3] == d
  {
    var s := " " + d + [' ', u, 'B'];
    assert s[|s| - 1] == 'B';
    assert s[|s| - 3..] == [' ', u, 'B'];
    assert s[1..|s| - 3] == d;
  }

  // ---------------------------------------------------------------------------
  // Attachment links
  // ---------------------------------------------------------------------------

  /** One line of the attachment list: the link, its file name and the size text. */
  datatype AttachmentLine = AttachmentLine(href: string, filename: string, size: string)

  const AttachmentPath := "api/email.lua?"

  function AttachmentQuery(mid: string, hash: string): string {
    "attachment=true&id=" + mid + "&file=" + hash
  }

  function AttachmentHref(apiURL: string, mid: string, hash: string): string {
    apiURL + AttachmentPath + AttachmentQuery(mid, hash)
  }

  predicate AllUnreserved(s: string) {
    forall i :: 0 <= i < |s| ==> Unreserved(s[i])
  }

  /**
    The link's query names the attachment flag, the email and the file: with
    ids made of URI-safe characters the server's query reader finds exactly
    those three fields, in order.
   */
  lemma AttachmentHrefReadsBack(apiURL: string, mid: string, hash: string)
    requires AllUnreserved(mid) && AllUnreserved(hash)
    ensures AttachmentHref(apiURL, mid, hash)[..|apiURL| + |AttachmentPath|] == apiURL + AttachmentPath
    ensures ParseQuery(AttachmentHref(apiURL, mid, hash)[|apiURL| + |AttachmentPath|..], false)
         == Some([("attachment", "true"), ("id", mid), ("file", hash)])
  {
    var fs := [("attachment", "true"), ("id", mid), ("file", hash)];
    var pre, q := apiURL + AttachmentPath, AttachmentQuery(mid, hash);
    var href := AttachmentHref(apiURL, mid, hash);
    assert href == pre + q;
    assert href[..|pre|] == pre && href[|pre|..] == q;
    assert ParseQuery(q, false) == Some(fs) by {
      AttachmentQueryIsQuery(mid, hash);
      AttachmentNamesPlain(fs, mid, hash);
      ParseQueryOfQuery(fs, false);
    }
  }

  lemma AttachmentNamesPlain(fs: seq<Field>, mid: string, hash: string)
    requires fs == [("attachment", "true"), ("id", mid), ("file", hash)]
    ensures forall i :: 0 <= i < |fs| ==> PlainName(fs[i].0)
  {
    assert PlainName("attachment") && PlainName("id") && PlainName("file");
  }

  lemma AttachmentQueryIsQuery(mid: string, hash: string)
    requires AllUnreserved(mid) && AllUnreserved(hash)
    ensures Query([("attachment", "true"), ("id", mid), ("file", hash)]) == AttachmentQuery(mid, hash)
  {
    var fs := [("attachment", "true"), ("id", mid), ("file", hash)];
    var a, b, c := "attachment=true", "id=" + mid, "file=" + hash;
    calc {
      Query(fs);
      Join(EncodeFields(fs), "&");
    == { EncodedAttachmentFields(mid, hash); }
      Join([a, b, c], "&");
    == { JoinThree(a, b, c, "&"); }
      a + "&" + (b + "&" + c);
    == { assert a + "&" + "id=" == "attachment=true&id=";
         assert "&" + "file=" == "&file="; }
      AttachmentQuery(mid, hash);
    }
  }

  lemma EncodedAttachmentFields(mid: string, hash: string)
    requires AllUnreserved(mid) && AllUnreserved(hash)
    ensures EncodeFields([("attachment", "true"), ("id", mid), ("file", hash)]) == ["attachment=true", "id=" + mid, "file=" + hash]
  {
    var ps := EncodeFields([("attachment", "true"), ("id", mid), ("file", hash)]);
    EncodeTrue();
    EncodeUnreserved(mid);
    EncodeUnreserved(hash);
    assert ps[0] == "attachment" + "=" + "true" == "attachment=true";
    assert ps[1] == "id" + "=" + mid == "id=" + mid;
    assert ps[2] == "file" + "=" + hash == "file=" + hash;
  }

  lemma EncodeTrue()
    ensures Encode("true") == "true"
  {
    EncodeUnreserved("true");
  }

  /** The line an attachment of email `mid` is listed with. */
  function LineOf(apiURL: string, mid: string, a: Attachment): AttachmentLine {
    AttachmentLine(AttachmentHref(apiURL, mid, a.hash), a.filename, SizeText(Shown(a.size)))
  }

  /** The loop over `json.attachments`: each one's link, name and size text, with `fs` overwritten band by band. */
  method AttachmentLinks(apiURL: string, mid: string, atts: seq<Attachment>) returns (lines: seq<AttachmentLine>)
    ensures |lines| == |atts|
    ensures forall n :: 0 <= n < |atts| ==> lines[n] == LineOf(apiURL, mid, atts[n])
  {
    lines := [];
    for n := 0 to |atts|
      invariant |lines| == n
      invariant forall k :: 0 <= k < n ==> lines[k] == LineOf(apiURL, mid, atts[k])
    {
      var attachment := atts[n];
      var link := apiURL + AttachmentPath + AttachmentQuery(mid, attachment.hash);
      var fs := " " + NatToString(attachment.size) + " bytes";
      if attachment.size >= 1024 {
        fs := " " + NatToString(attachment.size / 1024) + " KB";
      }
      if attachment.size >= 1024 * 1024 {
        fs := " " + Hundredths(attachment.size * 100 / 1048576) + " MB";
      }
      lines := lines + [AttachmentLine(link, attachment.filename, fs)];
    }
  }

  // ---------------------------------------------------------------------------
  // Header fields
  // ---------------------------------------------------------------------------

  /**
    `list_raw.replace(".", "@", 1).replace(/[<>]/g, "")`: the first dot turned
    into `@`, then the angle brackets removed.  The composer does the two steps
    the other way round; both give the same name.
   */
  function ListName(listRaw: string): (r: string)
    ensures r == ListAddress(listRaw)
  {
    RemoveAnglesReplaceFirstCommute(listRaw, '@');
    RemoveAngles(ReplaceFirst(listRaw, '.', '@'))
  }

  const NoSubject := "(No subject)"

  /** An empty subject is shown as `(No subject)`; any other subject as it is. */
  function SubjectShown(subject: string): (r: string)
    ensures r != ""
    ensures subject != "" ==> r == subject
    ensures subject == "" ==> r == NoSubject
  {
    if subject == "" then NoSubject else subject
  }

  const NoAuthor := "(No author?)"

  /**
    The chatty layout's author: the sender with the first `\s*<.+>` and every
    double quote removed; when nothing is left, the address captured by
    `\s*<(.+@.+)>\s*`, or `(No author?)` without one.
   */
  function ChattyAuthor(from: string): (r: string)
    ensures r != ""
  {
    var name := RemoveChar(RemoveAngled(from, true), '"');
    if |name| == 0 then
      match AngleAddress(from, 0)
      case Some(a) => a
      case None => NoAuthor
    else name
  }

  /** `Name <address>` shows the name without its quotes. */
  lemma ChattyAuthorOfNameAddr(name: string, pad: string, addr: string)
    requires DisplayName(name) && BracketedAddress(addr) && RemoveChar(name, '"') != ""
    requires forall i :: 0 <= i < |pad| ==> IsJsSpace(pad[i])
    ensures ChattyAuthor(name + pad + "<" + addr + ">") == RemoveChar(name, '"')
  {
    RemoveAngledOfNameAddr(name, pad, addr, true);
  }

  /** A bare `<user@host>` shows the address. */
  lemma ChattyAuthorOfBareAddr(pad: string, addr: string)
    requires BracketedAddress(addr) && InnerAt(addr, 1, |addr| - 1)
    requires forall i :: 0 <= i < |pad| ==> IsJsSpace(pad[i])
    ensures ChattyAuthor(pad + "<" + addr + ">") == addr
  {
    assert "" + pad + "<" + addr + ">" == pad + "<" + addr + ">";
    RemoveAngledOfNameAddr("", pad, addr, true);
    AngleAddressOfNameAddr("", pad, addr);
  }

  /** A sender without angle brackets or quotes is shown as it is, and an empty one as `(No author?)`. */
  lemma ChattyAuthorPlain(from: string)
    requires '<' !in from && '"' !in from
    ensures from != "" ==> ChattyAuthor(from) == from
    ensures from == "" ==> ChattyAuthor(from) == NoAuthor
  {
    NoAngleNoMatch(from, 0);
    RemoveCharSpec(from, '"');
  }

  // ---------------------------------------------------------------------------
  // The view
  // ---------------------------------------------------------------------------

  /** `ponymail_preferences.login && login.credentials && login.credentials.admin` */
  predicate ShowAdmin(login: Option<Login>) {
    LoggedIn(login) && login.value.credentials.value.admin
  }

  /** `json.private === true`: only a present `true`, not merely a truthy value. */
  predicate ShowPrivate(e: EmailRecord) {
    e.private == Some(true)
  }

  datatype Button = ReplyButton(mid: string) | PermalinkButton(href: string) | SourceButton(href: string) | AdminButton(href: string)

  /** The toolbar under the body: reply, permalink and source, and the admin button for administrators. */
  function Toolbar(e: EmailRecord, apiURL: string, login: Option<Login>): seq<Button> {
    [ReplyButton(e.mid), PermalinkButton("thread/" + e.mid), SourceButton(apiURL + "api/source.lua?id=" + e.mid)]
    + (if ShowAdmin(login) then [AdminButton("admin/" + e.mid)] else [])
  }

  predicate HasAdminButton(tb: seq<Button>) {
    exists i :: 0 <= i < |tb| && tb[i].AdminButton?
  }

  /** The admin button is there exactly when an administrator is signed in, and then it is the last one. */
  lemma ToolbarAdmin(e: EmailRecord, apiURL: string, login: Option<Login>)
    ensures HasAdminButton(Toolbar(e, apiURL, login)) <==> ShowAdmin(login)
    ensures ShowAdmin(login) ==> Toolbar(e, apiURL, login)[3] == AdminButton("admin/" + e.mid)
    ensures |Toolbar(e, apiURL, login)| == if ShowAdmin(login) then 4 else 3
  {
    var tb := Toolbar(e, apiURL, login);
    if ShowAdmin(login) {
      assert tb[3].AdminButton?;
    }
  }

  datatype EmailView =
    | Classic(from: string, subject: string, listName: string, privateRow: bool,
              attachments: seq<AttachmentLine>, body: string, privateBackground: bool, toolbar: seq<Button>)
    | Chatty(author: string, inlineSubject: Option<string>, body: string, privateBackground: bool,
             attachments: seq<AttachmentLine>, toolbar: seq<Button>)

  /** Attachments are listed only when the record has a non-empty list of them. */
  function AttachmentsOf(e: EmailRecord): seq<Attachment> {
    if e.attachments.Some? && |e.attachments.value| > 0 then e.attachments.value else []
  }

  function AttachmentLinesOf(apiURL: string, e: EmailRecord): seq<AttachmentLine> {
    var atts := AttachmentsOf(e);
    seq(|atts|, n requires 0 <= n < |atts| => LineOf(apiURL, e.mid, atts[n]))
  }

  /** The classic layout: sender, subject, list, the private row, attachments, body and toolbar. */
  function ClassicView(e: EmailRecord, apiURL: string, login: Option<Login>): EmailView {
    Classic(e.from, SubjectShown(e.subject), ListName(e.listRaw), ShowPrivate(e),
            AttachmentLinesOf(apiURL, e), e.body, ShowPrivate(e), Toolbar(e, apiURL, login))
  }

  /** The chatty layout: author name, the subject above the body of the email the thread was opened at. */
  function ChattyView(e: EmailRecord, apiURL: string, login: Option<Login>, currentOpenEmail: Option<string>): EmailView {
    Chatty(ChattyAuthor(e.from), if currentOpenEmail == Some(e.mid) then Some(e.subject) else None,
           e.body, ShowPrivate(e), AttachmentLinesOf(apiURL, e), Toolbar(e, apiURL, login))
  }

  /** The page's cache of every email drawn, which the composer reads when replying. */
  class Renderer {
    var fullEmails: map<string, EmailRecord>

    constructor()
      ensures fullEmails == map[]
    {
      fullEmails := map[];
    }

    /**
      `render_email(state, json)`: the record is cached under its `mid` first,
      replacing any earlier entry, then the email is drawn in the layout the
      user chose.
     */
    method Render(e: EmailRecord, chatty: bool, apiURL: string, login: Option<Login>, currentOpenEmail: Option<string>)
      returns (v: EmailView)
      modifies this
      ensures fullEmails == old(fullEmails)[e.mid := e]
      ensures e.mid != "" ==> Composer.Picked(e.mid, fullEmails) == Some(e)
      ensures forall r :: r != e.mid ==> Composer.Picked(r, fullEmails) == Composer.Picked(r, old(fullEmails))
      ensures chatty ==> v == ChattyView(e, apiURL, login, currentOpenEmail)
      ensures !chatty ==> v == ClassicView(e, apiURL, login)
    {
      CacheWrite(fullEmails, e);
      fullEmails := fullEmails[e.mid := e];
      var lines := AttachmentLinks(apiURL, e.mid, AttachmentsOf(e));
      assert lines == AttachmentLinesOf(apiURL, e);
      var toolbar := [ReplyButton(e.mid), PermalinkButton("thread/" + e.mid), SourceButton(apiURL + "api/source.lua?id=" + e.mid)];
      if login.Some? && login.value.credentials.Some? && login.value.credentials.value.admin {
        toolbar := toolbar + [AdminButton("admin/" + e.mid)];
      }
      assert toolbar == Toolbar(e, apiURL, login);
      if chatty {
        var inline := if currentOpenEmail == Some(e.mid) then Some(e.subject) else None;
        return Chatty(ChattyAuthor(e.from), inline, e.body, e.private == Some(true), lines, toolbar);
      }
      var listName := ListName(e.listRaw);
      v := Classic(e.from, SubjectShown(e.subject), listName, e.private == Some(true), lines, e.body, e.private == Some(true), toolbar);
    }
  }

  /**
    After the record is cached, a reply to the email (`full_emails[replyto]`
    in the composer) picks this very record, and a reply to any other email
    picks what it picked before.
   */
  lemma CacheWrite(cache: map<string, EmailRecord>, e: EmailRecord)
    ensures e.mid != "" ==> Composer.Picked(e.mid, cache[e.mid := e]) == Some(e)
    ensures forall r :: r != e.mid ==> Composer.Picked(r, cache[e.mid := e]) == Composer.Picked(r, cache)
  {
  }
}
