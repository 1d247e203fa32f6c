/** `cmd_reply`: the subject and the body of a reply, with the original message quoted. */
module Reply {
  import opened Wrappers
  import opened Seqs
  import opened Text
  import opened Mail

  /** At most this many characters of the original body are quoted. */
  const QuoteLimit: nat := 500
  /** The marker every quoted line starts with. */
  const QuotePrefix: String := "> "

  /** `subject or ''`, then `Re: ` in front unless it already starts with `re:` in any case.
      The result is left as it was exactly when it already had the prefix. */
  function ReplySubject(subject: Option<String>): (r: String)
    ensures StartsWith(Lower(r), "re:")
    ensures EndsWith(r, OrElse(subject, ""))
    ensures r == OrElse(subject, "") <==> StartsWith(Lower(OrElse(subject, "")), "re:")
    ensures r != OrElse(subject, "") ==> r == "Re: " + OrElse(subject, "")
  {
    var s := OrElse(subject, "");
    if StartsWith(Lower(s), "re:") then s
    else
      LowerAppend("Re: ", s);
      assert Lower("Re: " + s)[..3] == Lower("Re: ")[..3] == "re:";
      assert ("Re: " + s)[|"Re: " + s| - |s|..] == s;
      "Re: " + s
  }

  /** Replying to a reply does not add a second prefix. */
  lemma ReplySubjectIdempotent(subject: Option<String>)
    ensures ReplySubject(Some(ReplySubject(subject))) == ReplySubject(subject)
  {
    var r := ReplySubject(subject);
    assert |r| >= 3;
    assert OrElse(Some(r), "") == r;
  }

  /** `s.replace('\n', '\n> ')`. */
  function Quote(s: String): (q: String)
    ensures |q| == |s| + 2 * Count(s, '\n')
  {
    if s == [] then []
    else (if s[0] == '\n' then "\n> " else [s[0]]) + Quote(s[1..])
  }

  /** The inverse of `Quote`: `t.replace('\n> ', '\n')`. */
  function Unquote(t: String): String {
    if t == [] then []
    else if |t| >= 3 && t[..3] == "\n> " then "\n" + Unquote(t[3..])
    else [t[0]] + Unquote(t[1..])
  }

  lemma {:induction false} QuoteRoundTrip(s: String)
    ensures Unquote(Quote(s)) == s
  {
    if s != [] {
      var q, tail := Quote(s), Quote(s[1..]);
      QuoteRoundTrip(s[1..]);
      if s[0] == '\n' {
        assert q[..3] == "\n> " && q[3..] == tail;
        assert Unquote(q) == "\n" + s[1..];
      } else {
        assert q[0] == s[0] && q[1..] == tail;
        assert |q| >= 3 ==> q[..3][0] != "\n> "[0];
        assert Unquote(q) == [s[0]] + s[1..];
      }
      HeadTail(s);
    }
  }

  /** In the quoted text, every newline is followed by the quote marker. */
  lemma {:induction false} QuoteMarksEveryLine(s: String)
    ensures forall i :: 0 <= i < |Quote(s)| && Quote(s)[i] == '\n' ==> StartsWith(Quote(s)[i + 1..], QuotePrefix)
  {
    if s != [] {
      QuoteMarksEveryLine(s[1..]);
      var q, tail := Quote(s), Quote(s[1..]);
      var h := if s[0] == '\n' then 3 else 1;
      assert q == q[..h] + tail;
      forall i | 0 <= i < |q| && q[i] == '\n' ensures StartsWith(q[i + 1..], QuotePrefix) {
        if i >= h {
          assert q[i] == tail[i - h];
          assert q[i + 1..] == tail[i - h + 1..];
        } else {
          assert s[0] == '\n' && i == 0;
        }
      }
    }
  }

  /** The quoted original: the first 500 characters of `text_body or ''`, each line behind `> `. */
  function QuoteBlock(original: Option<String>): (b: String)
    ensures StartsWith(b, QuotePrefix)
  {
    QuotePrefix + Quote(Take(OrElse(original, ""), QuoteLimit))
  }

  /** Every line of the quoted block starts with `> `. */
  lemma QuotedLinesMarked(original: Option<String>)
    ensures forall k :: 0 <= k < |Split(QuoteBlock(original), '\n')| ==>
      StartsWith(Split(QuoteBlock(original), '\n')[k], QuotePrefix)
  {
    var q := Quote(Take(OrElse(original, ""), QuoteLimit));
    var b := QuoteBlock(original);
    QuoteMarksEveryLine(Take(OrElse(original, ""), QuoteLimit));
    forall i | 0 <= i < |b| && b[i] == '\n' ensures StartsWith(b[i + 1..], QuotePrefix) {
      assert i >= 2 && b[i] == q[i - 2];
      assert StartsWith(q[i - 1..], QuotePrefix);
      assert b[i + 1] == q[i - 1] && b[i + 2] == q[i];
    }
    SplitPiecesStartWith(b, '\n', QuotePrefix);
  }

  /** The quoted block gives back the original text it quotes, at most 500 characters of it. */
  lemma QuoteBlockRecoversOriginal(original: Option<String>)
    ensures Unquote(QuoteBlock(original)[|QuotePrefix|..]) == Take(OrElse(original, ""), QuoteLimit)
    ensures |Unquote(QuoteBlock(original)[|QuotePrefix|..])| <= QuoteLimit
  {
    var t := Take(OrElse(original, ""), QuoteLimit);
    assert QuoteBlock(original)[|QuotePrefix|..] == Quote(t);
    QuoteRoundTrip(t);
  }

  /** The reply body: the user's message unchanged, a separator, the attribution line and the
      quoted original. `date` is the original's reception time as text. */
  function ReplyBody(message: String, date: String, sender: String, original: Option<String>): (b: String)
    ensures StartsWith(b, message)
    ensures EndsWith(b, QuoteBlock(original) + "\n")
  {
    var attribution := "\n\n---\n" + date + ", " + sender + " wrote:\n";
    var quoted := QuoteBlock(original) + "\n";
    StartsWithConcat(message, attribution + quoted);
    EndsWithConcat(attribution, quoted);
    EndsWithLonger(message, attribution + quoted, quoted);
    message + (attribution + quoted)
  }

  /** The sender named in the attribution line: the address, `None` when the sender has no
      address, `Unknown` when there is no sender. */
  function OriginalSender(item: Item): (s: String)
    ensures SenderAddress(item).Some? ==> s == SenderAddress(item).value
    ensures SenderAddress(item).None? ==> s == "None"
  {
    if item.sender.None? then "Unknown"
    else if item.sender.value.address.Some? then item.sender.value.address.value
    else "None"
  }

  /** The result of `cmd_reply`. A sent reply goes back to the original sender, when there is one. */
  datatype ReplyOutcome =
    | NotFound
    | Sent(subject: String, body: String, to: Option<Mailbox>)
    | SendError

  /** `cmd_reply` for the message found by its identifier (or none); `sent` is whether the
      server accepted the reply. */
  function CmdReply(found: Option<Item>, message: String, date: String, sent: bool): (o: ReplyOutcome)
    ensures o.NotFound? <==> found.None?
    ensures o.SendError? <==> found.Some? && !sent
    ensures o.Sent? ==>
      && StartsWith(o.body, message)
      && StartsWith(Lower(o.subject), "re:")
      && o.to == found.value.sender
    ensures o.Sent? ==>
      && o.subject == ReplySubject(found.value.subject)
      && o.body == ReplyBody(message, date, OriginalSender(found.value), found.value.textBody)
  {
    if found.None? then NotFound
    else
      var item := found.value;
      var body := ReplyBody(message, date, OriginalSender(item), item.textBody);
      if sent then Sent(ReplySubject(item.subject), body, item.sender) else SendError
  }
}
