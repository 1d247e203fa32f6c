/** The message records of the mail tool: the internal domain taken from the configured
    address, the internal/external classification of senders, the "addressed to me"
    test on the To and CC lists, and the loop of `get_unread_emails` that turns the
    messages returned by the inbox query into records. */
module Mail {
  import opened Wrappers
  import opened Seqs
  import opened Text

  /** The inbox query is cut after this many messages. */
  const MaxFetched: nat := 50
  /** A record keeps at most this many To and this many CC addresses. */
  const MaxRecipients: nat := 5
  /** A record's preview is cut from at most this many characters of the body. */
  const MaxPreview: nat := 150
  /** Length of the short message identifier (a prefix of a hexadecimal digest). */
  const IdLength: nat := 8

  /** A mailbox as the server reports it; either part may be unset. */
  datatype Mailbox = Mailbox(address: Option<String>, name: Option<String>)

  /** A message as the inbox query returns it, reduced to the attributes the tool reads.
      `received` is the text form of the reception time, the last fallback for the identifier. */
  datatype Item = Item(
    sender: Option<Mailbox>,
    subject: Option<String>,
    textBody: Option<String>,
    body: Option<String>,
    toRecipients: seq<Mailbox>,
    ccRecipients: seq<Mailbox>,
    messageId: Option<String>,
    itemId: Option<String>,
    received: String)

  /** The dictionary `get_unread_emails` builds for each message it keeps. */
  datatype Record = Record(
    id: String,
    itemId: Option<String>,
    messageId: Option<String>,
    sender: Option<String>,
    senderName: Option<String>,
    subject: String,
    preview: String,
    isInternal: bool,
    isDirect: bool,
    to: seq<String>,
    cc: seq<String>)

  /** Python truthiness of an optional string: set and non-empty. */
  predicate Truthy(s: Option<String>) {
    s.Some? && s.value != []
  }

  /** `s or default`. */
  function OrElse(s: Option<String>, default: String): String {
    if Truthy(s) then s.value else default
  }

  // ---------------------------------------------------------------------------
  // Internal domain and sender classification
  // ---------------------------------------------------------------------------

  /** `get_internal_domain`: empty when the configured address has no `@`; otherwise `@`
      followed by the lower-cased text between the first `@` and the next one (or the end).
      A non-empty result starts with `@` and holds no other `@`. */
  function InternalDomain(configured: String): (d: String)
    ensures d == [] <==> '@' !in configured
    ensures '@' in configured ==> d == "@" + Lower(Between(configured, '@'))
    ensures d != [] ==> d[0] == '@' && '@' !in d[1..]
  {
    if '@' in configured then
      SplitSecond(configured, '@');
      LowerKeepsNonLetter(Between(configured, '@'), '@');
      "@" + Lower(Split(configured, '@')[1])
    else
      ""
  }

  /** The classification of a sender: both the sender and the domain must be non-empty. */
  function IsInternal(sender: Option<String>, domain: String): (b: bool)
    ensures b ==> Truthy(sender) && domain != []
  {
    Truthy(sender) && domain != [] && EndsWith(Lower(sender.value), domain)
  }

  /** In `a + "@" + b` with no other `@`, the only `@` is the one after `a`. */
  lemma OnlyAtSign(a: String, b: String, i: nat)
    requires '@' !in a && '@' !in b
    requires i < |a + "@" + b| && (a + "@" + b)[i] == '@'
    ensures i == |a|
  {
  }

  /** `a@b` ends with `@x` exactly when `b` is `x`, as long as none of them holds another `@`. */
  lemma EndsWithDomain(a: String, b: String, x: String)
    requires '@' !in a && '@' !in b && '@' !in x
    ensures EndsWith(a + "@" + b, "@" + x) <==> b == x
  {
    var s := a + "@" + b;
    if EndsWith(s, "@" + x) {
      var p := |s| - |x| - 1;
      assert s[p] == ("@" + x)[0];
      OnlyAtSign(a, b, p);
      assert s[p + 1..] == b;
    }
    if b == x {
      assert s[|s| - |x| - 1..] == "@" + x;
    }
  }

  /** For a sender address `local@host` and a configured address with an `@`, the sender is
      internal exactly when its host equals, ignoring case, the configured address's domain. */
  lemma SameDomainIsInternal(local: String, host: String, configured: String)
    requires '@' !in local && '@' !in host && '@' in configured
    ensures IsInternal(Some(local + "@" + host), InternalDomain(configured))
        <==> Lower(host) == Lower(Between(configured, '@'))
  {
    var x := Lower(Between(configured, '@'));
    LowerAppend(local + "@", host);
    LowerAppend(local, "@");
    assert Lower("@") == "@";
    LowerKeepsNonLetter(local, '@');
    LowerKeepsNonLetter(host, '@');
    LowerKeepsNonLetter(Between(configured, '@'), '@');
    EndsWithDomain(Lower(local), Lower(host), x);
  }

  /** The configured user's own address is internal. */
  lemma OwnAddressIsInternal(local: String, host: String)
    requires '@' !in local && '@' !in host
    ensures IsInternal(Some(local + "@" + host), InternalDomain(local + "@" + host))
  {
    var s := local + "@" + host;
    IndexAfterPrefix(local, '@', host);
    assert s[IndexOf(s, '@') + 1..] == host;
    SameDomainIsInternal(local, host, s);
  }

  /** A sender text without `@` (such as the placeholder `Unknown`) is never internal. */
  lemma NoAtSignIsExternal(sender: String, configured: String)
    requires '@' !in sender
    ensures !IsInternal(Some(sender), InternalDomain(configured))
  {
    var d := InternalDomain(configured);
    LowerKeepsNonLetter(sender, '@');
  }

  // ---------------------------------------------------------------------------
  // Recipients
  // ---------------------------------------------------------------------------

  /** `[r.email_address.lower() for r in (recipients or []) if r.email_address]`. */
  function Addresses(rs: seq<Mailbox>): (r: seq<String>)
    ensures |r| <= |rs|
  {
    if rs == [] then []
    else (if Truthy(rs[0].address) then [Lower(rs[0].address.value)] else []) + Addresses(rs[1..])
  }

  /** An address is in the list exactly when some mailbox has it, non-empty, up to case. */
  lemma {:induction false} AddressesMembers(rs: seq<Mailbox>, a: String)
    ensures a in Addresses(rs) <==> exists m :: m in rs && Truthy(m.address) && a == Lower(m.address.value)
  {
    if rs != [] {
      AddressesMembers(rs[1..], a);
      assert forall m :: m in rs <==> m == rs[0] || m in rs[1..];
    }
  }

  /** `user_email in to_list + cc_list`: the user is addressed directly exactly when some
      To or CC mailbox has a non-empty address equal to the user's, ignoring case. */
  predicate IsDirect(item: Item, user: String): (b: bool)
    ensures b <==> Lower(user) in Addresses(item.toRecipients) || Lower(user) in Addresses(item.ccRecipients)
  {
    Lower(user) in Addresses(item.toRecipients) + Addresses(item.ccRecipients)
  }

  lemma DirectIffAddressed(item: Item, user: String)
    ensures IsDirect(item, user) <==> exists m :: m in item.toRecipients + item.ccRecipients
                                           && Truthy(m.address) && Lower(m.address.value) == Lower(user)
  {
    AddressesMembers(item.toRecipients, Lower(user));
    AddressesMembers(item.ccRecipients, Lower(user));
    var all := item.toRecipients + item.ccRecipients;
    assert forall m :: m in all <==> m in item.toRecipients || m in item.ccRecipients;
  }

  // ---------------------------------------------------------------------------
  // The record of one message
  // ---------------------------------------------------------------------------

  /** `(text_body or '')[:150].replace('\n', ' ').strip()`. */
  function Preview(textBody: Option<String>): (p: String)
    ensures |p| <= MaxPreview
    ensures '\n' !in p
    ensures Trimmed(p)
  {
    var cut := ReplaceChar(Take(OrElse(textBody, ""), MaxPreview), '\n', ' ');
    assert '\n' !in cut;
    StripKeepsOut(cut, '\n');
    Strip(cut)
  }

  /** A short one-line body with no white space at its ends is its own preview. */
  lemma PreviewOfShortLine(text: String)
    requires |text| <= MaxPreview && '\n' !in text && Trimmed(text)
    ensures Preview(Some(text)) == text
  {
    assert OrElse(Some(text), "") == text;
    assert Take(text, MaxPreview) == text;
    var cut := ReplaceChar(text, '\n', ' ');
    assert forall i :: 0 <= i < |text| ==> cut[i] == text[i];
    assert cut == text;
    StripTrimmed(text);
  }

  /** The sender shown for a message: its address, or `Unknown` when there is no sender. */
  function SenderAddress(item: Item): (a: Option<String>)
    ensures item.sender.None? ==> a == Some("Unknown")
    ensures item.sender.Some? ==> a == item.sender.value.address
    ensures !Truthy(a) ==> item.sender.Some?
  {
    if item.sender.None? then Some("Unknown") else item.sender.value.address
  }

  /** The sender's display name when it has one, otherwise the sender address. */
  function SenderName(item: Item): (n: Option<String>)
    ensures item.sender.Some? && Truthy(item.sender.value.name) ==> n == item.sender.value.name
    ensures !(item.sender.Some? && Truthy(item.sender.value.name)) ==> n == SenderAddress(item)
    ensures Truthy(SenderAddress(item)) ==> Truthy(n)
  {
    if item.sender.Some? && Truthy(item.sender.value.name) then item.sender.value.name
    else SenderAddress(item)
  }

  /** The key the short identifier is derived from: `message_id or id or str(datetime_received)`. */
  function IdSource(item: Item): (k: String)
    ensures Truthy(item.messageId) ==> k == item.messageId.value
    ensures !Truthy(item.messageId) && Truthy(item.itemId) ==> k == item.itemId.value
    ensures !Truthy(item.messageId) && !Truthy(item.itemId) ==> k == item.received
  {
    OrElse(item.messageId, OrElse(item.itemId, item.received))
  }

  /** `generate_email_id`: the first eight characters of the digest of the key. The digest
      (MD5 in hexadecimal in the tool) is a parameter. */
  function EmailId(item: Item, digest: String -> String): (id: String)
    ensures |id| <= IdLength
    ensures |digest(IdSource(item))| >= IdLength ==> id == digest(IdSource(item))[..IdLength]
  {
    Take(digest(IdSource(item)), IdLength)
  }

  /** Two messages with the same message id get the same short identifier, whatever their
      other attributes. */
  lemma IdIsStable(a: Item, b: Item, digest: String -> String)
    requires Truthy(a.messageId) && a.messageId == b.messageId
    ensures EmailId(a, digest) == EmailId(b, digest)
  {
  }

  /** Every record satisfies the caps the tool applies. */
  predicate WellFormed(r: Record) {
    && |r.id| <= IdLength
    && |r.to| <= MaxRecipients
    && |r.cc| <= MaxRecipients
    && |r.preview| <= MaxPreview
    && '\n' !in r.preview
    && r.subject != []
  }

  /** The dictionary built for one message. */
  function ToRecord(item: Item, user: String, domain: String, digest: String -> String): (r: Record)
    ensures WellFormed(r)
    ensures r.isDirect <==> IsDirect(item, user)
    ensures r.isInternal == IsInternal(SenderAddress(item), domain)
    ensures r.isInternal ==> domain != [] && Truthy(r.sender)
    ensures r.sender == SenderAddress(item) && r.senderName == SenderName(item)
    ensures r.preview == Preview(item.textBody)
    ensures r.subject == OrElse(item.subject, "(No subject)")
    ensures r.id == EmailId(item, digest)
    ensures r.itemId == item.itemId && r.messageId == item.messageId
    ensures r.to == Take(Addresses(item.toRecipients), MaxRecipients)
    ensures r.cc == Take(Addresses(item.ccRecipients), MaxRecipients)
    ensures |r.to| <= |Addresses(item.toRecipients)| && r.to == Addresses(item.toRecipients)[..|r.to|]
    ensures |r.cc| <= |Addresses(item.ccRecipients)| && r.cc == Addresses(item.ccRecipients)[..|r.cc|]
  {
    var sender := SenderAddress(item);
    Record(
      id := EmailId(item, digest),
      itemId := item.itemId,
      messageId := item.messageId,
      sender := sender,
      senderName := SenderName(item),
      subject := OrElse(item.subject, "(No subject)"),
      preview := Preview(item.textBody),
      isInternal := IsInternal(sender, domain),
      isDirect := IsDirect(item, user),
      to := Take(Addresses(item.toRecipients), MaxRecipients),
      cc := Take(Addresses(item.ccRecipients), MaxRecipients))
  }

  /** A message without a sender is shown as `Unknown` and classified external. */
  lemma MissingSenderIsExternal(item: Item, user: String, configured: String, digest: String -> String)
    requires item.sender.None?
    ensures !ToRecord(item, user, InternalDomain(configured), digest).isInternal
  {
    NoAtSignIsExternal("Unknown", configured);
  }

  // ---------------------------------------------------------------------------
  // The loop of get_unread_emails
  // ---------------------------------------------------------------------------

  /** Whether the loop keeps a message: always with `--all`, otherwise only when the user is
      in its To or CC list. */
  predicate Kept(item: Item, user: String, showAll: bool): (b: bool)
    ensures showAll ==> b
    ensures !showAll ==> (b <==> exists m :: m in item.toRecipients + item.ccRecipients
                                     && Truthy(m.address) && Lower(m.address.value) == Lower(user))
  {
    DirectIffAddressed(item, user);
    showAll || IsDirect(item, user)
  }

  /** The skip test and the record construction as function values, as the loop applies them. */
  function Keeper(user: String, showAll: bool): Item -> bool {
    item => Kept(item, user, showAll)
  }

  function Maker(user: String, domain: String, digest: String -> String): Item -> Record {
    item => ToRecord(item, user, domain, digest)
  }

  /** The records the loop appends, in the order of the messages: each is well formed, and
      without `showAll` each is addressed to the user. */
  function Collect(items: seq<Item>, user: String, domain: String, showAll: bool, digest: String -> String): (rs: seq<Record>)
    ensures |rs| <= |items|
    ensures forall k :: 0 <= k < |rs| ==> WellFormed(rs[k]) && (showAll || rs[k].isDirect)
  {
    var rs := FilterMap(items, Keeper(user, showAll), Maker(user, domain, digest));
    assert forall k :: 0 <= k < |rs| ==> WellFormed(rs[k]) && (showAll || rs[k].isDirect) by {
      forall k | 0 <= k < |rs| ensures WellFormed(rs[k]) && (showAll || rs[k].isDirect) {
        FilterMapSelects(items, Keeper(user, showAll), Maker(user, domain, digest));
        assert rs[k] in rs;
        var j :| 0 <= j < |items| && Kept(items[j], user, showAll) && rs[k] == ToRecord(items[j], user, domain, digest);
      }
    }
    rs
  }

  /** The loop keeps exactly the selected messages: each selected message has its record
      in the result, and each record comes from a selected message. */
  lemma CollectSelects(items: seq<Item>, user: String, domain: String, showAll: bool, digest: String -> String)
    ensures forall k :: 0 <= k < |items| && Kept(items[k], user, showAll) ==>
      ToRecord(items[k], user, domain, digest) in Collect(items, user, domain, showAll, digest)
    ensures forall e :: e in Collect(items, user, domain, showAll, digest) ==>
      exists k :: 0 <= k < |items| && Kept(items[k], user, showAll) && e == ToRecord(items[k], user, domain, digest)
  {
    FilterMapSelects(items, Keeper(user, showAll), Maker(user, domain, digest));
  }

  /** With `--all` nothing is dropped: there is one record per message, in order. */
  lemma CollectAll(items: seq<Item>, user: String, domain: String, digest: String -> String)
    ensures |Collect(items, user, domain, true, digest)| == |items|
    ensures forall k :: 0 <= k < |items| ==>
      Collect(items, user, domain, true, digest)[k] == ToRecord(items[k], user, domain, digest)
  {
    FilterMapKeepsAll(items, Keeper(user, true), Maker(user, domain, digest));
  }

  /** `get_unread_emails`: walk the first 50 messages of the query, skip those not addressed
      to the user unless `showAll`, and append one record per remaining message. */
  method UnreadEmails(inbox: seq<Item>, userAddress: String, configured: String, showAll: bool, digest: String -> String)
    returns (emails: seq<Record>)
    ensures emails == Collect(Take(inbox, MaxFetched), userAddress, InternalDomain(configured), showAll, digest)
    ensures |emails| <= MaxFetched
  {
    var domain := InternalDomain(configured);
    var fetched := Take(inbox, MaxFetched);
    var keep, make := Keeper(userAddress, showAll), Maker(userAddress, domain, digest);
    emails := [];
    for i := 0 to |fetched|
      invariant emails == FilterMap(fetched[..i], keep, make)
    {
      var item := fetched[i];
      FilterMapStep(fetched, i, keep, make, emails, make(item));
      if !keep(item) {
        continue;
      }
      emails := emails + [make(item)];
    }
    TakeAll(fetched);
  }
}
