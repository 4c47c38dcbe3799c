# Pony Mail (Foal): a verified model of the threading, rendering, composing and session core

Pony Mail is a mailing-list archive: a Python server that stores list emails and
user sessions, and a JavaScript web client that draws threads and lets
signed-in readers reply. This project models the parts of both that carry the
archive's own logic, and proves what they promise:

- **Server-side threading** (`server/plugins/mbox.py`): `construct_threads`
  sorts a list's emails by timestamp and hangs each one under a parent that
  `find_root_subject` picks, first by `In-Reply-To` with the same subject, then
  by the "thread subject" (leading `Word:` prefixes stripped, `_` and the list
  appended). It also gives each node its depth and counts emails per author.
  Beside it sit `extract_name` and the list-name normalisation of `is_public`.
  The forest is modelled as an arena: nodes are numbered in processing order and
  refer to each other by number.
- **Client-side thread drawing** (`webui/js/source/construct-thread.js`):
  `construct_thread` draws one container per node, recursing over the replies
  sorted by timestamp. It cycles five border colours, switches to flat
  containers below a width-dependent depth, and issues one `GET` per id not yet
  in the shared `included` list. The DOM becomes a tree of `Container` values
  and the `GET`s become a log of `Fetch` records.
  `expand_email_threaded` and `construct_single_thread` are methods of a
  `ThreadView` class.
- **Reply and `mailto:` builders** (`webui/js/source/composer.js`):
  `composer_re`, `mua_link`, the header map of `compose_email` and the form body
  of `compose_send`, with `encodeURIComponent` modelled character by character
  (UTF-8, percent-escapes) together with a reference decoder.
- **Email rendering** (`webui/js/source/render-email.js`): attachment links and
  size texts, the list name, the subject default, the chatty author name, the
  private markers and the admin button, and the `full_emails` cache.
- **Sessions** (`server/plugins/session.py`): the credentials defaults, the
  session objects, and `get_session`/`set_session`. This covers the week-long
  expiry and hourly write-back of live sessions, and the lookup in the stored
  session and account documents, which are modelled as maps.

Modules: `Common` (Option), `Text` (string builtins of Python and
JavaScript), `EpochSort` (the stable sort by timestamp), `UriComponent`,
`UrlForm` (query strings and `mailto:` URIs), `JsRegex` (the two address
regular expressions of the client), `Records` (the email record the client
receives), then one module per core file: `Mbox`, `ConstructThread`,
`Composer`, `RenderEmail` and `Session`.

Two consequences of `construct_thread` as written:

- The outermost `construct_thread` call has nesting level 1, and a container
  is nested iff its level is below `max_nesting`. So in a window narrower than
  500 pixels even the outermost email is drawn flat (`NarrowWindow`).
- The `included` check runs after the replies have been drawn. Fetches are
  therefore issued in post-order, and an id already seen does not stop the
  recursion below it.

## Model

| member | source | states |
|---|---|---|
| EpochSort.SortBy | server/plugins/mbox.py:399 | sorting by timestamp returns a permutation of the input in non-decreasing key order |
| EpochSort.SortByStable | webui/js/source/construct-thread.js:91 | the sort is stable: for every key, the elements with that key keep their input order |
| EpochSort.SortByIdempotent | webui/js/source/construct-thread.js:91 | sorting the replies again (each redraw sorts them in place) changes nothing |
| EpochSort.SortByMembers | server/plugins/mbox.py:399 | every element of the sorted list comes from the input |
| Mbox.RePrefixLengthMaximal | server/plugins/mbox.py:39 | `^([a-zA-Z]+:\s*)+` consumes every leading `Word:` group: no further group starts where the match ends |
| Mbox.LetterRunIs | server/plugins/mbox.py:39 | the letter run of the pattern is the maximal run of ASCII letters |
| Mbox.SpaceRunIs | server/plugins/mbox.py:39 | the `\s*` run is the maximal run of Python white space |
| Mbox.StripRePrefixSpec | server/plugins/mbox.py:405 | what is left after the substitution is a suffix of the subject with no `Word:` prefix |
| Mbox.StripRePrefixIdempotent | server/plugins/mbox.py:405 | stripping the prefixes twice gives the same as stripping once |
| Mbox.StripRePrefixWord | server/plugins/mbox.py:405 | a leading `Word:` with its spaces is removed, whatever follows |
| Mbox.ThreadSubjectSpec | server/plugins/mbox.py:404-405 | the thread subject has no line feed from the subject and ends with `_` and the list |
| Mbox.ThreadSubjectOfReply | server/plugins/mbox.py:404-405 | `Re: x` and `x` on the same list share a thread subject |
| Mbox.FirstWithTSubjectSpec | server/plugins/mbox.py:387-391 | the root search returns the first root with that thread subject, and None iff there is none |
| Mbox.FindRootSpec | server/plugins/mbox.py:371-391 | an `In-Reply-To` hit with the same subject wins; otherwise only a root whose thread subject matches, the first such, is returned |
| Mbox.FindRootSubject | server/plugins/mbox.py:371-391 | the method (with its loop over `threads`) returns what the specification `FindRoot` picks |
| Mbox.FindRootCongruent | server/plugins/mbox.py:378-389 | the parent choice depends only on the nodes' subjects and thread subjects |
| Mbox.HashDictSpec | server/plugins/mbox.py:420 | every processed message id (or `??`) is a key, and each key points at an email carrying it |
| Mbox.HashDictLatest | server/plugins/mbox.py:420 | a key points at the most recently processed email carrying it |
| Mbox.IndicesOfSpec | server/plugins/mbox.py:415-419 | the roots and the children lists hold exactly the matching positions, once each, in processing order |
| Mbox.ParentsOf | server/plugins/mbox.py:406 | every parent is an email processed earlier, so the forest is acyclic |
| Mbox.ExactlyOnce | server/plugins/mbox.py:415-419 | each email is a root iff it is nobody's child, is the child of at most one node, and that parent is earlier |
| Mbox.NodeNests | server/plugins/mbox.py:408-418 | in the nodes the loop builds, a root has depth 1 and every other node is one deeper than the node it was attached to |
| Mbox.CountFromSortBy | server/plugins/mbox.py:399-403 | sorting does not change how many emails each author sent |
| Mbox.Attach | server/plugins/mbox.py:415-419 | one step appends a root or appends the new index to its parent's children, with the depth set, and changes nothing else |
| Mbox.CountAuthor | server/plugins/mbox.py:400-403 | after one more email the tally counts, for every sender, exactly their emails among those processed |
| Mbox.ConstructThreads | server/plugins/mbox.py:394-421 | the loop builds exactly the specified forest (roots, parents, depths, children in order), epochs are non-decreasing, and `authors` counts each sender's emails |
| Mbox.EpochsSorted | server/plugins/mbox.py:399 | nodes built in processing order have non-decreasing epochs |
| Mbox.ExtractName | server/plugins/mbox.py:44-51 | when `^([^<]+)\s*<(.+)>$` matches, the two groups rebuild the input around `<` and `>`; otherwise both parts are the input stripped of `<>` |
| Mbox.ExtractNameOf | server/plugins/mbox.py:46-48 | `name<address>` gives back exactly `name` and `address` |
| Mbox.ExtractNameBare | server/plugins/mbox.py:49-51 | an address without `<` is returned, stripped, as both name and address |
| Mbox.NormaliseListName | server/plugins/mbox.py:304-306 | a name with `@` is kept; otherwise it is stripped of `<>` and its first `.` becomes `@`, and with no `.` the unpacking fails (None) |
| Mbox.IsPublic | server/plugins/mbox.py:302-310 | public iff the normalised name is a known list that is not private; an unknown list is not public |
| Text.RemoveCharSpec | server/plugins/mbox.py:404 | `replace("\n", "")` removes every line feed and keeps every other character |
| Text.RemoveAngles | webui/js/source/composer.js:33 | `replace(/[<>]/g, '')` removes every angle bracket and keeps every other character |
| Text.ReplaceFirst | webui/js/source/composer.js:33 | a one-character `replace` changes only the first occurrence |
| Text.RemoveAnglesReplaceFirstCommute | webui/js/source/render-email.js:60 | replacing the first `.` then removing `<>` equals removing `<>` then replacing the first `.` |
| Text.TrimAngles | server/plugins/mbox.py:50 | `strip("<>")` leaves no angle bracket at either end |
| Text.TrimAnglesOfBracketed | server/plugins/mbox.py:50 | stripping `<x>` gives `x` |
| Text.JoinSplit | webui/js/source/composer.js:162-167 | joining the pieces of a split on the same separator gives the string back |
| Text.SplitJoin | webui/js/source/composer.js:162-167 | splitting pieces joined by a separator they do not contain gives the pieces back |
| Text.LinesCount | webui/js/source/composer.js:162 | `split(/\r?\n/)` gives as many lines as the line feeds allow, and is a plain split without carriage returns |
| Text.NatToStringRoundTrip | webui/js/source/render-email.js:109 | the decimal text of a size reads back as the size |
| UriComponent.EncodeAlphabet | webui/js/source/composer.js:9 | `encodeURIComponent` output holds only unreserved characters and `%`, so no `&`, `=` or `?` survives |
| UriComponent.EncodeUnreserved | webui/js/source/composer.js:9 | a string of unreserved characters is its own encoding |
| UriComponent.DecodeUtf8OfUtf8 | webui/js/source/composer.js:9 | the UTF-8 bytes of every character decode back to it |
| UriComponent.DecodeEncode | webui/js/source/composer.js:9 | `decodeURIComponent(encodeURIComponent(s)) == s` for every string |
| UriComponent.DecodePlain | webui/js/source/composer.js:174 | text without `%` decodes to itself |
| UrlForm.ParseQueryOfQuery | webui/js/source/composer.js:7-20 | a `k=v&…` body built from plainly named fields reads back as exactly those fields, in order |
| UrlForm.ParseMailtoOfMailto | webui/js/source/composer.js:185 | a built `mailto:` URI reads back as its recipient and its fields |
| UrlForm.NoAmpersandInField | webui/js/source/composer.js:9 | an encoded field never holds the `&` that separates fields |
| JsRegex.RemoveAngled | webui/js/source/composer.js:166 | removing the leftmost `\s*<.+?>` never lengthens the text |
| JsRegex.AngleEndAgree | webui/js/source/render-email.js:205 | the lazy and the greedy pattern match at the same `<` |
| JsRegex.RemoveAngledOfNameAddr | webui/js/source/composer.js:166 | `Name <addr>` loses the spaces and the bracketed address and keeps the name, under either pattern |
| JsRegex.AngleAddress | webui/js/source/render-email.js:206 | a captured address holds an `@` and at least three characters |
| JsRegex.AngleAddressOfNameAddr | webui/js/source/render-email.js:206 | `Name <user@host>` captures `user@host` |
| JsRegex.NoAngleNoMatch | webui/js/source/render-email.js:205-206 | without a `<` nothing is removed and no address is captured |
| Records.ListAddress | webui/js/source/composer.js:33 | the posting address has no angle bracket |
| Composer.ComposerRe | webui/js/source/composer.js:161-169 | the loop that prefixes each line in place yields the attribution line followed by the quoted lines joined by line feeds |
| Composer.QuotedLines | webui/js/source/composer.js:161-169 | the quote has one line per body line, each the body line behind `> `, and without carriage returns the unquoted lines join back into the body |
| Composer.Utf16PrefixSpec | webui/js/source/composer.js:180-182 | a successful `substring(0, N)` keeps a prefix of exactly N code units, or the whole string |
| Composer.Utf16PrefixBmp | webui/js/source/composer.js:180-182 | where every character is one code unit, the cut is a plain prefix |
| Composer.ShortenSpec | webui/js/source/composer.js:176-183 | a body of at most 16000 code units is kept whole; a longer one becomes its first 16000 and the truncation note |
| Composer.ReplyLinkIsMailto | webui/js/source/composer.js:185 | the reply link is the `mailto:` URI of the subject, threading and body fields |
| Composer.ReplyLinkReadsBack | webui/js/source/composer.js:185 | a mail client reading the reply link finds the list address and the three fields in order |
| Composer.MuaLinkReadsBack | webui/js/source/composer.js:172-187 | an email's reply link reads back as its list address, `RE: ` subject, message id and shortened quoted body |
| Composer.MuaLinkAsWrittenLosesInReplyTo | webui/js/source/composer.js:185 | as written, a reader of the link finds no `In-Reply-To` field: the id sits under `amp;In-Reply-To` |
| Composer.MuaLinkInReplyTo | webui/js/source/composer.js:185 | with a plain `&`, the reader finds the subject, the message id under `In-Reply-To`, and the body |
| Composer.MuaLinkNewThread | webui/js/source/composer.js:173-175 | without an email, the link is exactly `mailto:{list}?subject=Subject+goes+here` and reads back so |
| Composer.MuaLinkFails | webui/js/source/composer.js:172-187 | the link is missing exactly when there is neither an email nor a list, or the cut splits a surrogate pair |
| Composer.Lookup | webui/js/source/composer.js:4 | a header found in the map is one of its entries |
| Composer.LookupAppend | webui/js/source/composer.js:4 | looking a name up in two maps one after the other: the first wins |
| Composer.PutLookup | webui/js/source/composer.js:35-42 | after assigning a header, it reads back as the new value and every other header is unchanged |
| Composer.PutNew | webui/js/source/composer.js:35-42 | a header not yet present is appended at the end |
| Composer.ReplyHeadersSpec | webui/js/source/composer.js:31-42 | the map is reset; `in-reply-to` and `references` are set only for a non-empty message id, `eid` only for replies, `to` always, and every name is plain |
| Composer.FillHeaders | webui/js/source/composer.js:31-42 | the step-by-step property assignments build exactly that header map |
| Composer.BuildForm | webui/js/source/composer.js:64-121 | the signed-in form: `Re: ` subject and quoted body for a reply, the title, and the sender list with the alternates in order |
| Composer.EncodeHeaders | webui/js/source/composer.js:8-10 | the loop over the header map encodes each value behind its name, in order |
| Composer.SendFieldsEncoded | webui/js/source/composer.js:7-15 | the posted parts are the headers, then `subject=`, then `body=`, then `alt=` only with alternates |
| Composer.SendFieldsReadBack | webui/js/source/composer.js:7-20 | the posted form body reads back, field by field, as the headers, subject, body and sender |
| Composer.Composer.Open | webui/js/source/composer.js:129-158 | the dialog is created or refilled with the title and contents, shown, and nothing else changes |
| Composer.Composer.ComposeEmail | webui/js/source/composer.js:26-124 | the link (in its corrected form, `MuaLink`), list, mid and header map are set; a reader who is not signed in gets only the client link for a reply and nothing for a new thread; a signed-in reader gets the form |
| Composer.Composer.ComposeSend | webui/js/source/composer.js:6-24 | exactly one form body is posted, built from the header map, subject, body and the chosen sender, and the dialog is hidden |
| ConstructThread.Children | webui/js/source/construct-thread.js:91 | the sorted replies are as many as the received ones |
| ConstructThread.ChildIn | webui/js/source/construct-thread.js:91-93 | each reply in drawing order is one of the replies received |
| ConstructThread.ChildrenSame | webui/js/source/construct-thread.js:91 | sorting the replies loses none and adds none |
| ConstructThread.RenderFirstAt | webui/js/source/construct-thread.js:92-94 | the i-th reply container is the i-th sorted reply drawn with colour number `cid + i` |
| ConstructThread.RenderReply | webui/js/source/construct-thread.js:59-96 | a container has one reply container per reply, its colour is `(cid + 1) % 5`, its level one more, and its replies are drawn from the sorted replies |
| ConstructThread.RenderLayout | webui/js/source/construct-thread.js:59-93 | everywhere, colours lie in 0..4, a reply's level is its parent's plus one, a container is nested iff its level is below the cap, and the outermost call has level 1 and colour 1 |
| ConstructThread.FlatBelow | webui/js/source/construct-thread.js:69-84 | once a container is flat, everything below it is flat |
| ConstructThread.RenderSorted | webui/js/source/construct-thread.js:91-97 | the reply containers follow the inner wrapper in ascending timestamp order |
| ConstructThread.RenderDrawnFrom | webui/js/source/construct-thread.js:92-97 | each reply container is drawn from one of the received replies |
| ConstructThread.NarrowWindow | webui/js/source/construct-thread.js:61-69 | below 700 pixels the cap is `floor(mw/250)`, so the outermost email is nested only from 500 pixels on |
| ConstructThread.DedupSpec | webui/js/source/construct-thread.js:100-102 | the fetched ids have no duplicates, were not seen before, and every id is either seen or fetched |
| ConstructThread.DedupAppend | webui/js/source/construct-thread.js:90-102 | the shared `included` list lets a later subtree see what an earlier one fetched |
| ConstructThread.PostOrderMember | webui/js/source/construct-thread.js:90-110 | an id comes up in a node's fetch order iff it is the node's or comes up below one of its replies |
| ConstructThread.PostOrderKeys | webui/js/source/construct-thread.js:90-110 | the ids considered for fetching are exactly the ids of the tree as received |
| ConstructThread.PostOrderSplit | webui/js/source/construct-thread.js:90-110 | a node's fetches are those of its replies' subtrees, then its own if still new |
| ConstructThread.Construct | webui/js/source/construct-thread.js:50-112 | the recursion draws the specified container, fetches each new id once in post-order, grows `included` by what it fetched, and asks to scroll only for the outermost node's own fetch |
| ConstructThread.ConstructReplies | webui/js/source/construct-thread.js:90-99 | the loop over the sorted replies draws them with consecutive colours and fetches their subtrees' new ids, with no scroll |
| ConstructThread.ConstructReply | webui/js/source/construct-thread.js:93-97 | one pass of that loop draws the next reply and extends the fetch log by its subtree's new ids |
| ConstructThread.ThreadView.ConstructThread | webui/js/source/construct-thread.js:50-112 | a missing thread draws nothing; otherwise the container is the specified one and the fetch log grows by the fetches |
| ConstructThread.ThreadView.ExpandEmailThreaded | webui/js/source/construct-thread.js:19-48 | a visible placeholder is hidden without rebuilding or fetching; a hidden one is shown, and filled once, with `current_open_email` set from the thread and the thread's emails fetched once each in post-order; when nothing is filled, `current_open_email` is unchanged |
| ConstructThread.ThreadView.ConstructSingleThread | webui/js/source/construct-thread.js:115-144 | a truthy error (`message` when `okay` is false, `error` otherwise) shows the error dialog and nothing is drawn or fetched; a missing answer or thread, or in the chatty layout a thread without `list_raw` or an answer without a first email, throws before anything is drawn or fetched; otherwise the thread is drawn, in the chatty layout under the first email's subject and a `list.html?` link labelled `Posted to` the list's posting address, and its emails are fetched once each in post-order |
| RenderEmail.Shown | webui/js/source/render-email.js:109-111 | below 1024 bytes the size is shown in bytes, below 1048576 in whole kilobytes rounded down, and otherwise in megabytes rounded down to hundredths |
| RenderEmail.HundredthsReadsBack | webui/js/source/render-email.js:111 | the megabyte number reads back as the hundredths it came from and never ends in a zero decimal |
| RenderEmail.SizeTextReadsBack | webui/js/source/render-email.js:109-111 | every size text reads back as the quantity and unit it shows, so different sizes never look alike |
| RenderEmail.AttachmentHrefReadsBack | webui/js/source/render-email.js:103 | the attachment link is the API path followed by a query that reads back as `attachment=true`, the email id and the file hash |
| RenderEmail.AttachmentLinks | webui/js/source/render-email.js:101-114 | the loop gives one line per attachment, in order, with its link, file name and size text |
| RenderEmail.ListName | webui/js/source/render-email.js:60 | the rendered list name equals the composer's posting address |
| RenderEmail.SubjectShown | webui/js/source/render-email.js:41 | an empty subject shows as `(No subject)`, any other as it is, so the shown subject is never empty |
| RenderEmail.ChattyAuthor | webui/js/source/render-email.js:205-207 | the chatty author name is never empty |
| RenderEmail.ChattyAuthorOfNameAddr | webui/js/source/render-email.js:205 | `Name <addr>` shows the name without its quotes |
| RenderEmail.ChattyAuthorOfBareAddr | webui/js/source/render-email.js:206-207 | a bare `<user@host>` shows the address |
| RenderEmail.ChattyAuthorPlain | webui/js/source/render-email.js:205-207 | a sender without brackets or quotes shows as it is, and an empty one as `(No author?)` |
| RenderEmail.ToolbarAdmin | webui/js/source/render-email.js:168-178 | the admin button is present iff the login, its credentials and the admin flag are all there, and then it comes last |
| RenderEmail.Renderer.Render | webui/js/source/render-email.js:3-181 | the record is cached under its mid first, so that a later reply to it picks this record and a reply to any other email picks what it did before; then the classic or chatty view is drawn with the subject, list, private markers, attachments and toolbar |
| RenderEmail.CacheWrite | webui/js/source/render-email.js:5 | once a record is cached, the composer's `full_emails[replyto]` picks it for a reply to that email, and picks the same as before for a reply to any other |
| Session.CredentialsOf | server/plugins/session.py:44-60 | a key present in the credentials document is taken as it is; a missing key, or a missing document, gives that field's own default (`""`, `generic`, false, `{}`) |
| Session.CredentialsDefaults | server/plugins/session.py:53-60 | without a document the credentials are empty, provider `generic`, neither authoritative nor admin, no OAuth data; an empty document gives the same |
| Session.SavedAccount | server/plugins/session.py:205-222 | the saved account keeps the identity and the provider and its data, but neither the admin flag nor `authoritative` |
| Session.LoadedCredentials | server/plugins/session.py:140-154 | `authoritative` holds iff the account's provider is one of the authoritative domains; the provider defaults to `generic` |
| Session.ReloadAfterSave | server/plugins/session.py:205-222 | saving an account and reading it back as `get_session` does (lines 142-154) keeps everything but admin rights, and decides `authoritative` afresh |
| Session.SessionObject.Fresh | server/plugins/session.py:73-79 | a new session is created and last accessed now, with a fresh cookie, no account and no credentials |
| Session.SessionObject.FromFields | server/plugins/session.py:80-84 | a session from keyword arguments has the given fields and no creation time |
| Session.SessionObject.Copy | server/plugins/session.py:116 | the copy is a new object with the same fields |
| Session.Visit | server/plugins/session.py:105-112 | a visit expires the session iff more than a week has passed; otherwise its timestamp lags the visit by at most an hour |
| Session.ReplayKeepsAlive | server/plugins/session.py:105-112 | a session visited at least every week minus an hour never expires |
| Session.ReplayExpires | server/plugins/session.py:105-106 | a session expires at the first gap between visits longer than a week |
| Session.SavesSpaced | server/plugins/session.py:110-112 | write-backs of a live session are more than an hour apart |
| Session.StoreLookup | server/plugins/session.py:120-161 | a stored session is kept iff its document is fresh and names an existing account; a stale or missing one gives an anonymous session that is not kept |
| Session.StaleDocumentKeptAsWritten | server/plugins/session.py:133-137 | as written, a stale document outlives the lookup that found it stale |
| Session.StaleDocumentRemoved | server/plugins/session.py:133-137 | with the delete carried out, a stale document is gone after the lookup |
| Session.DocsAfter | server/plugins/session.py:133-137 | the corrected half of the second finding: with the delete awaited, the lookup removes only the stale document, and every other document is unchanged |
| Session.SessionSurvivesInStore | server/plugins/session.py:164-181 | a session `set_session` registered is found again from the store alone within a week, with its account and without admin rights |
| Session.SessionStore.SaveSession | server/plugins/session.py:184-194 | the session document under the cookie records the account and the last access |
| Session.SessionStore.RemoveSession | server/plugins/session.py:197-202 | the session document under the cookie is deleted |
| Session.SessionStore.SaveCredentials | server/plugins/session.py:205-222 | the account document is written under the session's account id |
| Session.SessionStore.GetSession | server/plugins/session.py:87-161 | a live session is expired, refreshed and saved, or left alone, and a copy is returned; otherwise the store lookup decides; every session stays filed under its own cookie, and no other live session changes |
| Session.SessionStore.FromStore | server/plugins/session.py:120-161 | the database half builds the session `StoreLookup` specifies, keeps it in memory when it names an account, and deletes a stale document, in the corrected form `DocsAfter` gives |
| Session.SessionStore.SetSession | server/plugins/session.py:164-181 | a new session under the fresh id is live in memory with the given account and credentials, its document and account are saved, and the cookie `ponymail=<id>` is returned |

## Left out

- The DOM, modals, timers, scrolling and `console.log`: the model keeps what is drawn, as values, and the fetches issued, as a log.
- The network, the database pool and `async` scheduling. The session and account indices are maps, and a fetch is a log entry whose answer is not modelled.
- Date formatting (`ISOBare`, `toLocaleDateString`), `fixup_quotes` and gravatar images: they are presentation only.
- The "Message dispatched!" notice of `compose_send`: it is fixed text.
- `anonymize` in `mbox.py`: an optional regular-expression rewrite with an md5 hash.
- The Elasticsearch queries of `mbox.py` (`get_email`, `fetch_children`, `find_parent`, `query`, and the rest).
- RenderEmail.Shown: the megabyte figure is computed in integer hundredths, `floor(size * 100 / 1048576)`. The floating-point rounding of `size/(1024*10.24)` is not modelled.
- RenderEmail.Renderer.Render: the classic source button uses `apiURL` and the attachment links use `pm_config.apiURL`. Both are taken to be the same string.
- ConstructThread.Construct: `thread.children` is taken to be an array; a missing one is modelled as no replies. The in-place sort's effect on the caller's data is not kept: each call sorts afresh, which `SortByIdempotent` shows gives the same order.
- ConstructThread.Construct: the window width `calc_email_width()` is read once per drawing and treated as constant during it.
- ConstructThread.Render: the colour is kept as its index 0..4, not as the hex string of the palette.
- Session.SessionStore.GetSession: cookie header parsing is left out; the cookie's value comes in as `sid`.
- Session.SessionStore.GetSession: a database error other than a missing document, and a document missing its `_source` fields, are not modelled.
- Session.SessionStore.SetSession: `time.time()` is a float and is stored unrounded. Here the time is an integer.
- Session.SessionStore.SaveCredentials: a session without an account id would be indexed under a generated id. The model leaves the account map unchanged, because no lookup by account id can reach that document.
- Session.CredentialsOf: the class annotates a `provider` field but sets `oauth_provider`. Only `oauth_provider` is modelled.
- Composer.Composer.ComposeEmail: the form's focus call and the modal's close button are DOM behaviour.
- Composer.Composer.ComposeEmail: stores and shows the corrected link (`&In-Reply-To=`, `Composer.MuaLink`). As written, `mua_trigger` holds the link with `&amp;In-Reply-To=` (composer.js:185), so the page the code builds differs from the model's in that field. `Composer.MuaLinkAsWritten` and the first Findings row capture the as-written link.
- Session.DocsAfter: is the corrected definition. As written, `delete` at session.py:134 is not awaited and the session documents stay unchanged (`Session.DocsAfterAsWritten`, second Findings row).
- Session.SessionStore.GetSession: its store branch uses the corrected `DocsAfter` and deletes a stale document. As written, the document stays.
- Session.SessionStore.FromStore: deletes a stale document, as the corrected `DocsAfter` says. As written, the un-awaited delete removes nothing.
- Mbox.ConstructThreads: a missing `subject` or `list_raw` raises in Python. Emails are modelled with both present.
- Mbox.HashKey: a `message-id` that is present but null is filed by `get("message-id", "??")` under the key `None`. The model files it under `"??"` with the absent ones, so an email whose `in-reply-to` is literally `??` could find that node in the model but not in Python.

## Findings

| source | as written | input that shows it | evidently intended | confidence | as-written member | corrected member |
|---|---|---|---|---|---|---|
| webui/js/source/composer.js:185 | the `mailto:` link joins its fields with the literal `&amp;In-Reply-To=`, an HTML entity inside a URI built in JavaScript | any email with a message id, e.g. `<a@b>`: a mail client reads a field named `amp;In-Reply-To` and no `In-Reply-To` | `&In-Reply-To=`, so that the client's reply threads under the email | not executed | Composer.MuaLinkAsWrittenLosesInReplyTo | Composer.MuaLinkInReplyTo |
| server/plugins/session.py:134-136 | the delete of a stale session document is called without `await`, so the coroutine never runs (`remove_session` at line 199 awaits the same call) | a cookie whose stored document was updated 604801 seconds ago: the lookup returns an anonymous session and the document stays, to be read again on every visit | `await session.database.delete(...)` | not executed; assumes `Database.delete` is a coroutine function like `get` and `index`, which the same file awaits | Session.StaleDocumentKeptAsWritten | Session.StaleDocumentRemoved |
