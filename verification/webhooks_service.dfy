/** The inbound-email pipeline of src/modules/webhooks/webhooks.service.ts:
    a provider delivery is routed to its user through the receiving address,
    de-duplicated by message id, stored as a pending newsletter, counted in
    the sender's subscription, and handed to the parse queue. */
module Ingestion {
  import opened Common
  import opened Store
  import Text
  import Decimal
  import CryptoUtils
  import Parser

  // ------------------------------------------------ display name of a sender

  predicate NoLineTerminator(s: string) {
    forall i :: 0 <= i < |s| ==> !Text.IsLineTerminator(s[i])
  }

  /** Where `\s*` stops when the first group ends at `l`. */
  function AngleAt(s: string, l: nat): nat
    requires l <= |s|
  {
    l + Text.LeadingSpace(s[l..])
  }

  /** `/^(.+?)\s*<(.+?)>$/` matches `s` with its first group `s[..l]`: the
      group is non-empty and free of line terminators, the whitespace after
      it runs up to a '<', and a non-empty rest free of line terminators is
      closed by a final '>'. */
  predicate NameSplitAt(s: string, l: nat) {
    && 1 <= l <= |s|
    && NoLineTerminator(s[..l])
    && var j := AngleAt(s, l);
       && j + 2 < |s|
       && s[j] == '<'
       && s[|s| - 1] == '>'
       && NoLineTerminator(s[j + 1..|s| - 1])
  }

  /** The lazy first group: the shortest split from `l` on. */
  function ShortestNameSplit(s: string, l: nat): (r: Option<nat>)
    requires 1 <= l
    ensures r.Some? ==> l <= r.value && NameSplitAt(s, r.value)
    ensures r.Some? ==> forall k :: l <= k < r.value ==> !NameSplitAt(s, k)
    ensures r.None? ==> forall k :: l <= k ==> !NameSplitAt(s, k)
    decreases |s| + 1 - l
  {
    if l > |s| then None
    else if NameSplitAt(s, l) then Some(l)
    else ShortestNameSplit(s, l + 1)
  }

  /** `extractNameFromEmail(email)`: the trimmed display name of
      `Name <address>`, or `null` when the pattern does not match. */
  function ExtractNameFromEmail(email: string): (r: Option<string>)
    ensures r.None? <==> forall l: nat :: !NameSplitAt(email, l)
    ensures r.Some? ==> exists l: nat :: (
      && NameSplitAt(email, l)
      && (forall k: nat :: k < l ==> !NameSplitAt(email, k))
      && r.value == Text.Trim(email[..l]))
  {
    match ShortestNameSplit(email, 1)
    case None => None
    case Some(l) => Some(Text.Trim(email[..l]))
  }

  /** The usual header form: `Name <address>` gives back the name. */
  lemma DisplayName(name: string, address: string)
    requires name != "" && Text.NoEdgeSpace(name) && NoLineTerminator(name)
    requires forall i :: 0 <= i < |name| ==> name[i] != '<'
    requires address != "" && NoLineTerminator(address)
    ensures ExtractNameFromEmail(name + " <" + address + ">") == Some(name)
  {
    var s := name + " <" + address + ">";
    var n := |name|;
    assert s[..n] == name;
    assert s[n..] == " <" + address + ">";
    assert s[n..][0] == ' ' && s[n..][1] == '<';
    assert Text.LeadingSpace(s[n..]) == 1;
    assert s[n + 2..|s| - 1] == address;
    assert NameSplitAt(s, n);
    forall k: nat | k < n
      ensures !NameSplitAt(s, k)
    {
      if 1 <= k {
        var ls := Text.LeadingSpace(s[k..]);
        assert s[k..][n - 1 - k] == name[n - 1];
        assert !Text.IsSpace(s[k..][n - 1 - k]);
        assert ls <= n - 1 - k;
        assert s[AngleAt(s, k)] == name[k + ls];
      }
    }
    var l := ShortestNameSplit(s, 1).value;
    assert l == n;
    Text.TrimOfNoEdgeSpace(name);
  }

  /** A bare address, without '<', has no display name. */
  lemma BareAddressHasNoName(email: string)
    requires forall i :: 0 <= i < |email| ==> email[i] != '<'
    ensures ExtractNameFromEmail(email) == None
  {
    forall l: nat
      ensures !NameSplitAt(email, l)
    {
      if 1 <= l <= |email| && AngleAt(email, l) < |email| {
        assert email[AngleAt(email, l)] != '<';
      }
    }
  }

  // ------------------------------------------------ newsletter name of a sender

  /** Length of the leading run of characters other than '@'. */
  function NonAtRun(s: string): (k: nat)
    ensures k <= |s|
    ensures forall i :: 0 <= i < k ==> s[i] != '@'
    ensures k < |s| ==> s[k] == '@'
    decreases |s|
  {
    if |s| > 0 && s[0] != '@' then 1 + NonAtRun(s[1..]) else 0
  }

  /** Length of the leading run of '@' characters. */
  function AtRun(s: string): (k: nat)
    ensures k <= |s|
    ensures forall i :: 0 <= i < k ==> s[i] == '@'
    ensures k < |s| ==> s[k] != '@'
    decreases |s|
  {
    if |s| > 0 && s[0] == '@' then 1 + AtRun(s[1..]) else 0
  }

  /** `w` sits at `p` in `s` and a '@' follows it. */
  predicate RunBeforeAt(s: string, w: string, p: nat) {
    p + |w| < |s| && s[p..p + |w|] == w && s[p + |w|] == '@'
  }

  /** `w` is a non-empty run of characters other than '@'. */
  predicate NonAtWord(w: string) {
    w != "" && forall i :: 0 <= i < |w| ==> w[i] != '@'
  }

  /** The capture of `/([^@]+)@/`: the leftmost match starts at the first
      character that is not '@' (every earlier start would be a '@'), and
      the greedy class runs up to the next '@'. There is no match exactly
      when every '@' after the first character follows another '@'. */
  function LocalPart(s: string): (r: Option<string>)
    ensures r.None? <==> NoRunBeforeAt(s)
    ensures r.Some? ==> NonAtWord(r.value) && RunBeforeAt(s, r.value, AtRun(s))
    decreases |s|
  {
    var k := NonAtRun(s);
    if k == |s| then None
    else if k > 0 then
      LeadingRun(s, k);
      Some(s[..k])
    else
      var r := LocalPart(s[1..]);
      LocalPartAfterAt(s, r);
      r
  }

  /** Every '@' after the first character follows another '@'. */
  predicate NoRunBeforeAt(s: string) {
    forall i :: 0 < i < |s| && s[i] == '@' ==> s[i - 1] == '@'
  }

  /** The case of `LocalPart` where `s` starts with a run that a '@' follows. */
  lemma LeadingRun(s: string, k: nat)
    requires 0 < k < |s| && k == NonAtRun(s)
    ensures !NoRunBeforeAt(s)
    ensures NonAtWord(s[..k]) && RunBeforeAt(s, s[..k], AtRun(s))
  {
    assert s[k - 1] != '@';
    assert s[0..k] == s[..k];
  }

  /** The case of `LocalPart` where `s` starts with '@': the match is the
      match in the rest, one position further on. */
  lemma LocalPartAfterAt(s: string, r: Option<string>)
    requires |s| > 0 && s[0] == '@'
    requires r.None? <==> NoRunBeforeAt(s[1..])
    requires r.Some? ==> NonAtWord(r.value) && RunBeforeAt(s[1..], r.value, AtRun(s[1..]))
    ensures r.None? <==> NoRunBeforeAt(s)
    ensures r.Some? ==> NonAtWord(r.value) && RunBeforeAt(s, r.value, AtRun(s))
  {
    NoRunAfterAt(s);
    if r.Some? {
      RunAfterAt(s, r.value);
    }
  }

  lemma NoRunAfterAt(s: string)
    requires |s| > 0 && s[0] == '@'
    ensures NoRunBeforeAt(s) <==> NoRunBeforeAt(s[1..])
  {
    assert forall j :: 0 <= j < |s| - 1 ==> s[1..][j] == s[j + 1];
  }

  lemma RunAfterAt(s: string, w: string)
    requires |s| > 0 && s[0] == '@'
    requires RunBeforeAt(s[1..], w, AtRun(s[1..]))
    ensures RunBeforeAt(s, w, AtRun(s))
  {
    var p := AtRun(s[1..]);
    assert AtRun(s) == p + 1;
    SliceOfTail(s, p, p + |w|);
  }

  lemma SliceOfTail(s: string, a: nat, b: nat)
    requires a <= b < |s| - 1
    ensures s[1..][a..b] == s[a + 1..b + 1] && s[1..][b] == s[b + 1]
  {
  }

  /** Any run that a '@' follows makes the pattern match, no later than
      that run starts; a run at the match's start is the capture itself. */
  lemma LocalPartIsLeftmost(s: string, w: string, p: nat)
    requires NonAtWord(w) && RunBeforeAt(s, w, p)
    ensures LocalPart(s).Some?
    ensures AtRun(s) <= p
    ensures AtRun(s) == p ==> LocalPart(s) == Some(w)
  {
    var i := p + |w|;
    assert s[i - 1] == s[p..p + |w|][|w| - 1];
    assert s[p] == s[p..p + |w|][0];
    if AtRun(s) == p {
      RunAtUnique(s, LocalPart(s).value, w, p);
    }
  }

  /** Two '@'-free runs at the same place that a '@' follows are the same. */
  lemma RunAtUnique(s: string, v: string, w: string, p: nat)
    requires NonAtWord(v) && RunBeforeAt(s, v, p)
    requires NonAtWord(w) && RunBeforeAt(s, w, p)
    ensures v == w
  {
    assert forall j :: 0 <= j < |w| ==> w[j] == s[p + j];
    assert forall j :: 0 <= j < |v| ==> v[j] == s[p + j];
  }

  /** The local part of `local@domain` is `local`. */
  lemma LocalPartOfAddress(local: string, domain: string)
    requires local != "" && forall i :: 0 <= i < |local| ==> local[i] != '@'
    ensures LocalPart(local + "@" + domain) == Some(local)
  {
    var s := local + "@" + domain;
    var k := NonAtRun(s);
    assert s[|local|] == '@';
    assert k == |local| by {
      assert forall i :: 0 <= i < |local| ==> s[i] == local[i];
    }
    assert s[..k] == local;
  }

  /** The characters that split a local part into words. */
  const NameSeparators: set<char> := {'.', '_', '-'}

  /** The newsletter name read character by character: every separator
      becomes a space and every character that begins a word is
      upper-cased; all other characters are kept. */
  function Titled(x: string, atWordStart: bool): (r: string)
    ensures |r| == |x|
    ensures forall i :: 0 <= i < |x| && x[i] in NameSeparators ==> r[i] == ' '
    ensures forall i :: 0 <= i < |x| && x[i] !in NameSeparators ==>
      r[i] == (if (i == 0 && atWordStart) || (i > 0 && x[i - 1] in NameSeparators)
               then Text.UpperChar(x[i]) else x[i])
    decreases |x|
  {
    if |x| == 0 then ""
    else
      var rest := Titled(x[1..], x[0] in NameSeparators);
      var head := if x[0] in NameSeparators then ' '
                  else if atWordStart then Text.UpperChar(x[0]) else x[0];
      assert forall i :: 1 <= i < |x| ==> x[1..][i - 1] == x[i];
      [head] + rest
  }

  /** The words joined by spaces, each but perhaps the first capitalised. */
  function JoinWords(words: seq<string>, firstAtStart: bool): string
    requires |words| >= 1
  {
    var head := if firstAtStart then Text.UpperFirst(words[0]) else words[0];
    Text.Join([head] + Text.MapUpperFirst(words[1..]), " ")
  }

  lemma JoinConsChar(c: char, w: string, ws: seq<string>, sep: string)
    ensures Text.Join([[c] + w] + ws, sep) == [c] + Text.Join([w] + ws, sep)
  {
    assert ([[c] + w] + ws)[1..] == ws;
    assert ([w] + ws)[1..] == ws;
  }

  /** Splitting on the separators, capitalising and joining with spaces is
      the character-wise reading `Titled`. */
  lemma {:induction false} SplitCapitaliseJoin(x: string, atWordStart: bool)
    ensures JoinWords(Text.Split(x, NameSeparators), atWordStart) == Titled(x, atWordStart)
    decreases |x|
  {
    if |x| > 0 {
      var rest := Text.Split(x[1..], NameSeparators);
      var upper := Text.MapUpperFirst(rest);
      if x[0] in NameSeparators {
        SplitCapitaliseJoin(x[1..], true);
        var parts := [""] + rest;
        assert Text.Split(x, NameSeparators) == parts;
        assert parts[1..] == rest;
        assert Text.UpperFirst("") == "";
        var joined := [""] + upper;
        assert ([""] + upper)[1..] == upper;
        assert Text.Join(joined, " ") == "" + " " + Text.Join(upper, " ");
        assert upper == [Text.UpperFirst(rest[0])] + Text.MapUpperFirst(rest[1..]);
      } else {
        SplitCapitaliseJoin(x[1..], false);
        var parts := [[x[0]] + rest[0]] + rest[1..];
        assert Text.Split(x, NameSeparators) == parts;
        assert parts[1..] == rest[1..];
        var c := if atWordStart then Text.UpperChar(x[0]) else x[0];
        assert (if atWordStart then Text.UpperFirst(parts[0]) else parts[0]) == [c] + rest[0] by {
          if atWordStart {
            assert ([x[0]] + rest[0])[1..] == rest[0];
          }
        }
        JoinConsChar(c, rest[0], Text.MapUpperFirst(rest[1..]), " ");
      }
    }
  }

  /** How many characters of the subject name a newsletter with no usable
      sender address. */
  const SubjectNameLength: nat := 50

  /** `extractNewsletterName(senderEmail, subject)`: the sender's local part
      split on '.', '_' and '-', each word capitalised, joined by spaces;
      without a local part, the first 50 characters of the subject, and a
      `TypeError` when there is no subject either. */
  function ExtractNewsletterName(senderEmail: string, subject: Option<string>): (r: Result<string>)
    ensures LocalPart(senderEmail).Some? ==> r == Ok(Titled(LocalPart(senderEmail).value, true))
    ensures LocalPart(senderEmail).None? && subject.Some? ==>
      r == Ok(Text.Take(subject.value, SubjectNameLength))
    ensures LocalPart(senderEmail).None? && subject.None? ==> r == Err(TypeError)
  {
    match LocalPart(senderEmail)
    case Some(local) =>
      SplitCapitaliseJoin(local, true);
      var words := Text.Split(local, NameSeparators);
      Ok(Text.Join(Text.MapUpperFirst(words), " "))
    case None =>
      if subject.Some? then Ok(Text.Take(subject.value, SubjectNameLength)) else Err(TypeError)
  }

  // ------------------------------------------------------------ the delivery

  /** The fields of a provider's webhook body the service reads: SendGrid's
      `to`, `from`, `html`, `text` and Mailgun's `recipient`, `sender`,
      `body-html`, `body-plain`, `message-id`, plus `headers['message-id']`. */
  datatype Payload = Payload(
    to: Option<string>, recipient: Option<string>,
    from: Option<string>, sender: Option<string>,
    subject: Option<string>,
    html: Option<string>, bodyHtml: Option<string>,
    text: Option<string>, bodyPlain: Option<string>,
    headerMessageId: Option<string>, messageId: Option<string>)

  function RecipientOf(p: Payload): Option<string> {
    OrElse(p.to, p.recipient)
  }

  function SenderOf(p: Payload): Option<string> {
    OrElse(p.from, p.sender)
  }

  /** The message id: the header, else the body field, else one made from
      the clock (`sendgrid-<milliseconds>`). */
  function MessageIdOf(p: Payload, nowMs: nat): (id: string)
    ensures Truthy(p.headerMessageId) ==> id == p.headerMessageId.value
    ensures !Truthy(p.headerMessageId) && Truthy(p.messageId) ==> id == p.messageId.value
    ensures !Truthy(p.headerMessageId) && !Truthy(p.messageId) ==>
      id == "sendgrid-" + Decimal.ToDecimal(nowMs)
  {
    Or(OrEmpty(OrElse(p.headerMessageId, p.messageId)), "sendgrid-" + Decimal.ToDecimal(nowMs))
  }

  /** Each body is handed to the extractor under both of its names. */
  function ContentOf(p: Payload): Parser.EmailContent {
    var bodyHtml := OrElse(p.html, p.bodyHtml);
    var bodyPlain := OrElse(p.text, p.bodyPlain);
    Parser.ExtractEmailContent(bodyHtml, bodyHtml, bodyPlain, bodyPlain)
  }

  const NoSubject: string := "No Subject"

  /** `subject || 'No Subject'` */
  function SubjectOrDefault(subject: Option<string>): (r: string)
    ensures r != ""
    ensures Truthy(subject) ==> r == subject.value
  {
    Or(OrEmpty(subject), NoSubject)
  }

  /** How far a delivery gets before anything is written: refused with an
      error, skipped as a duplicate, or admitted for storage. */
  datatype Gate =
    | Reject(error: AppError)
    | Skip
    | Admit(userId: string, messageId: string, sender: string, content: Parser.EmailContent)

  /** The recipient names a registered user through its receiving address. */
  predicate Routed(s: Store, p: Payload) {
    && RecipientOf(p).Some?
    && CryptoUtils.ExtractUserId(RecipientOf(p).value).Some?
    && CryptoUtils.ExtractUserId(RecipientOf(p).value).value in s.users
  }

  /** The checks before the first write, in the order the service makes them. */
  function GateOf(s: Store, p: Payload, nowMs: nat): (g: Gate)
    ensures RecipientOf(p).None? ==> g == Reject(TypeError)
    ensures RecipientOf(p).Some? && CryptoUtils.ExtractUserId(RecipientOf(p).value).None? ==>
      g == Reject(NotFound("Invalid email alias: " + RecipientOf(p).value))
    ensures RecipientOf(p).Some? && CryptoUtils.ExtractUserId(RecipientOf(p).value).Some? && !Routed(s, p) ==>
      g == Reject(NotFound("User not found: " + CryptoUtils.ExtractUserId(RecipientOf(p).value).value))
    ensures g.Skip? <==> Routed(s, p) && HasMessage(s, MessageIdOf(p, nowMs))
    ensures Routed(s, p) && !HasMessage(s, MessageIdOf(p, nowMs)) && ContentOf(p).html == "" && ContentOf(p).text == "" ==>
      g == Reject(EmailParsing("Email has no content"))
    ensures g.Admit? <==>
      && Routed(s, p) && !HasMessage(s, MessageIdOf(p, nowMs))
      && (ContentOf(p).html != "" || ContentOf(p).text != "")
      && SenderOf(p).Some?
    ensures g.Admit? ==>
      && g.userId == CryptoUtils.ExtractUserId(RecipientOf(p).value).value
      && g.messageId == MessageIdOf(p, nowMs)
      && g.sender == SenderOf(p).value
      && g.content == ContentOf(p)
    ensures g.Reject? && g.error == TypeError ==> RecipientOf(p).None? || SenderOf(p).None?
  {
    match RecipientOf(p)
    case None => Reject(TypeError)
    case Some(recipient) =>
      match CryptoUtils.ExtractUserId(recipient)
      case None => Reject(NotFound("Invalid email alias: " + recipient))
      case Some(userId) =>
        if userId !in s.users then Reject(NotFound("User not found: " + userId))
        else
          var messageId := MessageIdOf(p, nowMs);
          if HasMessage(s, messageId) then Skip
          else
            var content := ContentOf(p);
            if !content.hasHtml && content.text == "" then Reject(EmailParsing("Email has no content"))
            else
              match SenderOf(p)
              case None => Reject(TypeError)
              case Some(sender) => Admit(userId, messageId, sender, content)
  }

  /** The newsletter row created for an admitted delivery. Status flags not
      named by the service take their column defaults. */
  function PendingRecord(id: string, userId: string, messageId: string, sender: string,
                         subject: Option<string>, content: Parser.EmailContent, nowMs: nat): (n: Newsletter)
    ensures n.id == id && n.userId == userId && n.messageId == messageId && n.fromEmail == sender
    ensures n.parseStatus == Pending && n.parsedAt.None? && n.parseError.None?
    ensures n.htmlContent != "" <==> content.html != "" || content.text != ""
    ensures n.htmlContent == (if content.html != "" then content.html else content.text)
    ensures n.fromName == ExtractNameFromEmail(sender)
    ensures n.subject == SubjectOrDefault(subject) && n.receivedAt == nowMs
  {
    Newsletter(
      id := id, userId := userId, messageId := messageId, fromEmail := sender,
      fromName := ExtractNameFromEmail(sender), subject := SubjectOrDefault(subject),
      receivedAt := nowMs, htmlContent := Or(content.html, content.text), cleanContent := "",
      textContent := content.text, title := None, author := None, publication := None,
      excerpt := None, estimatedReadTime := None, parseStatus := Pending, parseError := None,
      parsedAt := None, isRead := false, isArchived := false)
  }

  /** The subscription `sub` is the one for `(userId, senderEmail)`. */
  predicate IsFor(sub: Subscription, userId: string, senderEmail: string) {
    sub.userId == userId && sub.senderEmail == senderEmail
  }

  /** The subscription the upsert creates for a first delivery. */
  function FirstSubscription(id: string, userId: string, senderEmail: string, name: string, nowMs: nat): (sub: Subscription)
    ensures IsFor(sub, userId, senderEmail) && sub.id == id
    ensures sub.emailCount == 1 && sub.lastReceivedAt == Some(nowMs) && sub.isActive
    ensures sub.newsletterName == name && sub.senderDomain == Text.DomainPart(senderEmail)
  {
    Subscription(id, userId, name, senderEmail, Text.DomainPart(senderEmail), 1, Some(nowMs), nowMs, true)
  }

  /** `sub` counted once more, at `nowMs`. */
  function Counted(sub: Subscription, nowMs: nat): (r: Subscription)
    ensures r.emailCount == sub.emailCount + 1 && r.lastReceivedAt == Some(nowMs)
    ensures r.(emailCount := sub.emailCount, lastReceivedAt := sub.lastReceivedAt) == sub
  {
    sub.(emailCount := sub.emailCount + 1, lastReceivedAt := Some(nowMs))
  }

  /** The subscription upsert: the pair's subscription counts one more
      delivery, or is created with a count of 1 when the pair has none;
      every other subscription is left alone. */
  function Upsert(m: map<string, Subscription>, freshId: string, userId: string, senderEmail: string,
                  name: string, nowMs: nat): (t: map<string, Subscription>)
    requires SubscriptionsUnique(m) && freshId !in m
    ensures SubscriptionsUnique(t)
    ensures forall k :: k in m ==> k in t
    ensures forall k :: k in m && !IsFor(m[k], userId, senderEmail) ==> t[k] == m[k]
    ensures forall k :: k in m && IsFor(m[k], userId, senderEmail) ==> t[k] == Counted(m[k], nowMs)
    ensures (exists k :: k in m && IsFor(m[k], userId, senderEmail)) ==> t.Keys == m.Keys
    ensures (forall k :: k in m ==> !IsFor(m[k], userId, senderEmail)) ==>
      t == m[freshId := FirstSubscription(freshId, userId, senderEmail, name, nowMs)]
  {
    if exists k :: k in m && IsFor(m[k], userId, senderEmail) then
      var k :| k in m && IsFor(m[k], userId, senderEmail);
      m[k := Counted(m[k], nowMs)]
    else
      m[freshId := FirstSubscription(freshId, userId, senderEmail, name, nowMs)]
  }

  /** After the upsert the pair has its subscription. */
  lemma UpsertCoversPair(m: map<string, Subscription>, freshId: string, userId: string, senderEmail: string,
                         name: string, nowMs: nat)
    requires SubscriptionsUnique(m) && freshId !in m
    ensures var t := Upsert(m, freshId, userId, senderEmail, name, nowMs);
      exists k :: k in t && IsFor(t[k], userId, senderEmail)
  {
    var t := Upsert(m, freshId, userId, senderEmail, name, nowMs);
    if k :| k in m && IsFor(m[k], userId, senderEmail) {
      assert k in t && IsFor(t[k], userId, senderEmail);
    } else {
      assert freshId in t && IsFor(t[freshId], userId, senderEmail);
    }
  }

  datatype Outcome = Duplicate | Queued(newsletterId: string)

  /** The writes for an admitted delivery: the pending record, then the
      subscription upsert, then the parse job. The newsletter name is
      computed as the upsert's argument, after the record is written. */
  function Deliver(s: Store, newsletterId: string, subscriptionId: string, userId: string, messageId: string,
                   sender: string, subject: Option<string>, content: Parser.EmailContent, nowMs: nat): (st: Step<Outcome>)
    requires SubscriptionsUnique(s.subscriptions)
    requires newsletterId !in s.newsletters && subscriptionId !in s.subscriptions
    ensures var record := PendingRecord(newsletterId, userId, messageId, sender, subject, content, nowMs);
      && st.store.newsletters == s.newsletters[newsletterId := record]
      && st.store.users == s.users
    ensures ExtractNewsletterName(sender, subject).Err? ==>
      && st.result == Err(TypeError)
      && st.store.subscriptions == s.subscriptions && st.store.queue == s.queue
    ensures ExtractNewsletterName(sender, subject).Ok? ==>
      && st.result == Ok(Queued(newsletterId))
      && st.store.subscriptions == Upsert(s.subscriptions, subscriptionId, userId, sender,
                                          ExtractNewsletterName(sender, subject).value, nowMs)
      && st.store.queue == s.queue + [Job(newsletterId, st.store.newsletters[newsletterId].htmlContent,
                                          sender, SubjectOrDefault(subject))]
  {
    var record := PendingRecord(newsletterId, userId, messageId, sender, subject, content, nowMs);
    var created := s.(newsletters := s.newsletters[newsletterId := record]);
    match ExtractNewsletterName(sender, subject)
    case Err(e) => Step(Err(e), created)
    case Ok(name) =>
      var subscriptions := Upsert(s.subscriptions, subscriptionId, userId, sender, name, nowMs);
      var job := Job(newsletterId, record.htmlContent, sender, record.subject);
      Step(Ok(Queued(newsletterId)), created.(subscriptions := subscriptions, queue := s.queue + [job]))
  }

  /** `processIncomingEmail(webhookData)`. The clock and the ids the database
      generates for the new rows are parameters. */
  function ProcessIncomingEmail(s: Store, p: Payload, nowMs: nat,
                                newsletterId: string, subscriptionId: string): (st: Step<Outcome>)
    requires SubscriptionsUnique(s.subscriptions)
    requires newsletterId !in s.newsletters && subscriptionId !in s.subscriptions
    ensures GateOf(s, p, nowMs).Reject? ==> st == Step(Err(GateOf(s, p, nowMs).error), s)
    ensures GateOf(s, p, nowMs).Skip? ==> st == Step(Ok(Duplicate), s)
    ensures st.result == Ok(Duplicate) <==> Routed(s, p) && HasMessage(s, MessageIdOf(p, nowMs))
    ensures st.result.Ok? && st.result.value.Queued? ==>
      && st.result.value.newsletterId == newsletterId
      && GateOf(s, p, nowMs).Admit?
      && newsletterId in st.store.newsletters
      && st.store.newsletters[newsletterId].parseStatus == Pending
      && |st.store.queue| == |s.queue| + 1
      && st.store.queue[..|s.queue|] == s.queue
      && st.store.queue[|s.queue|].newsletterId == newsletterId
  {
    match GateOf(s, p, nowMs)
    case Reject(e) => Step(Err(e), s)
    case Skip => Step(Ok(Duplicate), s)
    case Admit(userId, messageId, sender, content) =>
      Deliver(s, newsletterId, subscriptionId, userId, messageId, sender, p.subject, content, nowMs)
  }

  // -------------------------------------------------------------- properties

  /** Nothing is written unless the delivery is admitted; once admitted,
      the only failure is the `TypeError` of naming a newsletter from a
      sender without a local part and without a subject, and it leaves the
      pending record behind with no subscription update and no parse job. */
  lemma {:induction false} WritesOnlyWhenAdmitted(s: Store, p: Payload, nowMs: nat,
                                                  newsletterId: string, subscriptionId: string)
    requires SubscriptionsUnique(s.subscriptions)
    requires newsletterId !in s.newsletters && subscriptionId !in s.subscriptions
    ensures var st := ProcessIncomingEmail(s, p, nowMs, newsletterId, subscriptionId);
      && (!GateOf(s, p, nowMs).Admit? ==> st.store == s)
      && (GateOf(s, p, nowMs).Admit? && st.result.Err? ==>
            && st.result == Err(TypeError)
            && LocalPart(SenderOf(p).value).None? && p.subject.None?
            && newsletterId in st.store.newsletters
            && st.store.subscriptions == s.subscriptions
            && st.store.queue == s.queue)
  {
    var g := GateOf(s, p, nowMs);
    if g.Admit? {
      var st := Deliver(s, newsletterId, subscriptionId, g.userId, g.messageId, g.sender, p.subject, g.content, nowMs);
      assert st == ProcessIncomingEmail(s, p, nowMs, newsletterId, subscriptionId);
    }
  }

  /** The provider delivering the same message again (same message id)
      finds it stored and changes nothing. */
  lemma {:induction false} RedeliveryIsDuplicate(s: Store, p: Payload, nowMs: nat, laterMs: nat,
                                                 newsletterId: string, subscriptionId: string,
                                                 newsletterId2: string, subscriptionId2: string)
    requires SubscriptionsUnique(s.subscriptions)
    requires newsletterId !in s.newsletters && subscriptionId !in s.subscriptions
    requires Truthy(p.headerMessageId) || Truthy(p.messageId)
    requires ProcessIncomingEmail(s, p, nowMs, newsletterId, subscriptionId).result.Ok?
    ensures var t := ProcessIncomingEmail(s, p, nowMs, newsletterId, subscriptionId).store;
      && SubscriptionsUnique(t.subscriptions)
      && (newsletterId2 !in t.newsletters && subscriptionId2 !in t.subscriptions ==>
            ProcessIncomingEmail(t, p, laterMs, newsletterId2, subscriptionId2) == Step(Ok(Duplicate), t))
  {
    var st := ProcessIncomingEmail(s, p, nowMs, newsletterId, subscriptionId);
    var t := st.store;
    var id := MessageIdOf(p, nowMs);
    assert MessageIdOf(p, laterMs) == id;
    if st.result.value.Queued? {
      var g := GateOf(s, p, nowMs);
      assert t == Deliver(s, newsletterId, subscriptionId, g.userId, g.messageId, g.sender, p.subject, g.content, nowMs).store;
      assert t.newsletters[newsletterId].messageId == id;
    }
    assert HasMessage(t, id);
    assert Routed(t, p);
  }

  /** Ingestion keeps the store's unique constraints: one newsletter per
      message id and one subscription per (user, sender). */
  lemma {:induction false} ProcessPreservesValid(s: Store, p: Payload, nowMs: nat,
                                                 newsletterId: string, subscriptionId: string)
    requires Valid(s)
    requires newsletterId !in s.newsletters && subscriptionId !in s.subscriptions
    ensures Valid(ProcessIncomingEmail(s, p, nowMs, newsletterId, subscriptionId).store)
  {
    var g := GateOf(s, p, nowMs);
    if g.Admit? {
      var st := Deliver(s, newsletterId, subscriptionId, g.userId, g.messageId, g.sender, p.subject, g.content, nowMs);
      assert st == ProcessIncomingEmail(s, p, nowMs, newsletterId, subscriptionId);
      var record := PendingRecord(newsletterId, g.userId, g.messageId, g.sender, p.subject, g.content, nowMs);
      assert forall o :: o in s.newsletters ==> s.newsletters[o].messageId != g.messageId;
      var name := ExtractNewsletterName(g.sender, p.subject);
      if name.Ok? {
        UpsertKeepsIds(s.subscriptions, subscriptionId, g.userId, g.sender, name.value, nowMs);
      }
      InsertKeepsValid(s, record, st.store.subscriptions, st.store.queue);
    }
  }

  /** A newsletter with a new id and a new message id, filed under its id,
      together with well-keyed, unique subscriptions, keeps the store valid. */
  lemma InsertKeepsValid(s: Store, n: Newsletter, subscriptions: map<string, Subscription>, queue: seq<Job>)
    requires Valid(s)
    requires n.id !in s.newsletters
    requires forall o :: o in s.newsletters ==> s.newsletters[o].messageId != n.messageId
    requires forall k :: k in subscriptions ==> subscriptions[k].id == k
    requires SubscriptionsUnique(subscriptions)
    ensures Valid(s.(newsletters := s.newsletters[n.id := n], subscriptions := subscriptions, queue := queue))
  {
  }

  /** The upsert files every subscription under its own id. */
  lemma UpsertKeepsIds(m: map<string, Subscription>, freshId: string, userId: string, senderEmail: string,
                       name: string, nowMs: nat)
    requires SubscriptionsUnique(m) && freshId !in m
    requires forall k :: k in m ==> m[k].id == k
    ensures var t := Upsert(m, freshId, userId, senderEmail, name, nowMs);
      forall k :: k in t ==> t[k].id == k
  {
  }

  /** The newsletters stored for a (user, sender) pair. */
  function DeliveredFrom(ns: map<string, Newsletter>, userId: string, senderEmail: string): set<string> {
    set id | id in ns && ns[id].userId == userId && ns[id].fromEmail == senderEmail
  }

  /** Every subscription's count is the number of stored newsletters of its
      pair, and every stored newsletter has its pair's subscription. */
  predicate CountsAgree(s: Store) {
    CountsMatch(s.newsletters, s.subscriptions) && Covered(s.newsletters, s.subscriptions)
  }

  predicate CountsMatch(ns: map<string, Newsletter>, subs: map<string, Subscription>) {
    forall k :: k in subs ==> subs[k].emailCount == |DeliveredFrom(ns, subs[k].userId, subs[k].senderEmail)|
  }

  predicate Covered(ns: map<string, Newsletter>, subs: map<string, Subscription>) {
    forall id :: id in ns ==> exists k :: k in subs && IsFor(subs[k], ns[id].userId, ns[id].fromEmail)
  }

  /** Storing one more newsletter adds it to its own pair and to no other. */
  lemma DeliveredAfterInsert(ns: map<string, Newsletter>, id: string, n: Newsletter, userId: string, senderEmail: string)
    requires id !in ns
    ensures DeliveredFrom(ns[id := n], userId, senderEmail) ==
      if n.userId == userId && n.fromEmail == senderEmail
      then DeliveredFrom(ns, userId, senderEmail) + {id}
      else DeliveredFrom(ns, userId, senderEmail)
  {
  }

  /** Storing a newsletter and counting it in its pair's subscription keeps
      every count equal to the number of stored newsletters of its pair. */
  lemma {:induction false} InsertAndUpsertMatch(ns: map<string, Newsletter>, subs: map<string, Subscription>,
                                                id: string, n: Newsletter, subscriptionId: string,
                                                name: string, nowMs: nat)
    requires SubscriptionsUnique(subs) && subscriptionId !in subs && id !in ns
    requires CountsMatch(ns, subs) && Covered(ns, subs)
    ensures CountsMatch(ns[id := n], Upsert(subs, subscriptionId, n.userId, n.fromEmail, name, nowMs))
  {
    var t := Upsert(subs, subscriptionId, n.userId, n.fromEmail, name, nowMs);
    if forall j :: j in subs ==> !IsFor(subs[j], n.userId, n.fromEmail) {
      UncoveredPairUndelivered(ns, subs, n.userId, n.fromEmail);
    }
    forall k | k in t
      ensures t[k].emailCount == |DeliveredFrom(ns[id := n], t[k].userId, t[k].senderEmail)|
    {
      InsertAndUpsertMatchAt(ns, subs, id, n, subscriptionId, name, nowMs, k);
    }
  }

  /** A pair without a subscription has no stored newsletters, when every
      stored newsletter is covered. */
  lemma UncoveredPairUndelivered(ns: map<string, Newsletter>, subs: map<string, Subscription>,
                                 userId: string, senderEmail: string)
    requires Covered(ns, subs)
    requires forall j :: j in subs ==> !IsFor(subs[j], userId, senderEmail)
    ensures DeliveredFrom(ns, userId, senderEmail) == {}
  {
    forall i | i in ns
      ensures !(ns[i].userId == userId && ns[i].fromEmail == senderEmail)
    {
      var j :| j in subs && IsFor(subs[j], ns[i].userId, ns[i].fromEmail);
      assert !IsFor(subs[j], userId, senderEmail);
    }
  }

  /** The count of one subscription after storing and counting a newsletter. */
  lemma InsertAndUpsertMatchAt(ns: map<string, Newsletter>, subs: map<string, Subscription>,
                               id: string, n: Newsletter, subscriptionId: string,
                               name: string, nowMs: nat, k: string)
    requires SubscriptionsUnique(subs) && subscriptionId !in subs && id !in ns
    requires k in subs ==> subs[k].emailCount == |DeliveredFrom(ns, subs[k].userId, subs[k].senderEmail)|
    requires (forall j :: j in subs ==> !IsFor(subs[j], n.userId, n.fromEmail)) ==>
      DeliveredFrom(ns, n.userId, n.fromEmail) == {}
    requires k in Upsert(subs, subscriptionId, n.userId, n.fromEmail, name, nowMs)
    ensures var t := Upsert(subs, subscriptionId, n.userId, n.fromEmail, name, nowMs);
      t[k].emailCount == |DeliveredFrom(ns[id := n], t[k].userId, t[k].senderEmail)|
  {
    var t := Upsert(subs, subscriptionId, n.userId, n.fromEmail, name, nowMs);
    DeliveredAfterInsert(ns, id, n, t[k].userId, t[k].senderEmail);
    if k in subs {
      assert id !in DeliveredFrom(ns, t[k].userId, t[k].senderEmail);
    } else {
      assert forall j :: j in subs ==> !IsFor(subs[j], n.userId, n.fromEmail);
      assert t[k] == FirstSubscription(subscriptionId, n.userId, n.fromEmail, name, nowMs);
    }
  }

  /** ... and keeps every stored newsletter covered by a subscription. */
  lemma {:induction false} InsertAndUpsertCovered(ns: map<string, Newsletter>, subs: map<string, Subscription>,
                                                  id: string, n: Newsletter, subscriptionId: string,
                                                  name: string, nowMs: nat)
    requires SubscriptionsUnique(subs) && subscriptionId !in subs && id !in ns
    requires Covered(ns, subs)
    ensures Covered(ns[id := n], Upsert(subs, subscriptionId, n.userId, n.fromEmail, name, nowMs))
  {
    var t := Upsert(subs, subscriptionId, n.userId, n.fromEmail, name, nowMs);
    var ns' := ns[id := n];
    UpsertCoversPair(subs, subscriptionId, n.userId, n.fromEmail, name, nowMs);
    forall i | i in ns'
      ensures exists k :: k in t && IsFor(t[k], ns'[i].userId, ns'[i].fromEmail)
    {
      if i != id {
        var k :| k in subs && IsFor(subs[k], ns[i].userId, ns[i].fromEmail);
        assert k in t && IsFor(t[k], ns'[i].userId, ns'[i].fromEmail);
      }
    }
  }

  /** Every accepted delivery keeps each subscription's count equal to the
      number of stored newsletters from its sender. */
  lemma {:induction false} ProcessKeepsCounts(s: Store, p: Payload, nowMs: nat,
                                              newsletterId: string, subscriptionId: string)
    requires Valid(s) && CountsAgree(s)
    requires newsletterId !in s.newsletters && subscriptionId !in s.subscriptions
    ensures var st := ProcessIncomingEmail(s, p, nowMs, newsletterId, subscriptionId);
      st.result.Ok? ==> CountsAgree(st.store)
  {
    var g := GateOf(s, p, nowMs);
    if g.Admit? && ExtractNewsletterName(g.sender, p.subject).Ok? {
      var name := ExtractNewsletterName(g.sender, p.subject).value;
      var st := Deliver(s, newsletterId, subscriptionId, g.userId, g.messageId, g.sender, p.subject, g.content, nowMs);
      assert st == ProcessIncomingEmail(s, p, nowMs, newsletterId, subscriptionId);
      var record := PendingRecord(newsletterId, g.userId, g.messageId, g.sender, p.subject, g.content, nowMs);
      InsertAndUpsertMatch(s.newsletters, s.subscriptions, newsletterId, record, subscriptionId, name, nowMs);
      InsertAndUpsertCovered(s.newsletters, s.subscriptions, newsletterId, record, subscriptionId, name, nowMs);
    }
  }

  /** The counts only grow: no delivery lowers a subscription's count or
      removes a subscription. */
  lemma CountsNeverDecrease(s: Store, p: Payload, nowMs: nat, newsletterId: string, subscriptionId: string)
    requires SubscriptionsUnique(s.subscriptions)
    requires newsletterId !in s.newsletters && subscriptionId !in s.subscriptions
    ensures var t := ProcessIncomingEmail(s, p, nowMs, newsletterId, subscriptionId).store;
      forall k :: k in s.subscriptions ==>
        k in t.subscriptions && t.subscriptions[k].emailCount >= s.subscriptions[k].emailCount
  {
    var g := GateOf(s, p, nowMs);
    if g.Admit? {
      assert ProcessIncomingEmail(s, p, nowMs, newsletterId, subscriptionId) ==
        Deliver(s, newsletterId, subscriptionId, g.userId, g.messageId, g.sender, p.subject, g.content, nowMs);
    }
  }

  /** A queued job names the pending record it is for and carries that
      record's non-empty content, sender and subject. */
  lemma QueuedJobMatchesRecord(s: Store, p: Payload, nowMs: nat, newsletterId: string, subscriptionId: string)
    requires SubscriptionsUnique(s.subscriptions)
    requires newsletterId !in s.newsletters && subscriptionId !in s.subscriptions
    requires ProcessIncomingEmail(s, p, nowMs, newsletterId, subscriptionId).result == Ok(Queued(newsletterId))
    ensures var t := ProcessIncomingEmail(s, p, nowMs, newsletterId, subscriptionId).store;
      var record := t.newsletters[newsletterId];
      && record.parseStatus == Pending
      && t.queue == s.queue + [Job(newsletterId, record.htmlContent, record.fromEmail, record.subject)]
      && record.htmlContent != ""
  {
    var g := GateOf(s, p, nowMs);
    assert ProcessIncomingEmail(s, p, nowMs, newsletterId, subscriptionId) ==
      Deliver(s, newsletterId, subscriptionId, g.userId, g.messageId, g.sender, p.subject, g.content, nowMs);
  }
}
