/** `cmd_read`: the body text shown for one message. */
module Reading {
  import opened Wrappers
  import opened Text
  import opened Mail

  /** A body longer than this, once stripped, is cut to this many characters. */
  const MaxBody: nat := 3000
  /** Appended to a body that was cut. */
  const TruncationMarker: String := "\n\n... [truncated, email too long]"
  /** Shown instead of an empty body. */
  const EmptyNotice: String := "(Empty email)"

  /** `item.text_body or item.body or ''`. */
  function BodyText(item: Item): (b: String)
    ensures Truthy(item.textBody) ==> b == item.textBody.value
    ensures !Truthy(item.textBody) && Truthy(item.body) ==> b == item.body.value
    ensures !Truthy(item.textBody) && !Truthy(item.body) ==> b == []
  {
    OrElse(item.textBody, OrElse(item.body, ""))
  }

  /** The stripped body, cut to 3000 characters plus the marker when it is longer. The result
      is empty exactly when the body is all white space. */
  function ReadBody(raw: String): (r: String)
    ensures |r| <= MaxBody + |TruncationMarker|
    ensures r == [] <==> AllSpace(raw)
    ensures |Strip(raw)| <= MaxBody ==> r == Strip(raw)
    ensures |Strip(raw)| > MaxBody ==>
      |r| == MaxBody + |TruncationMarker| && EndsWith(r, TruncationMarker) && StartsWith(Strip(raw), r[..MaxBody])
  {
    var body := Strip(raw);
    if |body| > MaxBody then body[..MaxBody] + TruncationMarker else body
  }

  /** What is printed: the body, or the empty-body notice. */
  function ShownBody(raw: String): (s: String)
    ensures AllSpace(raw) ==> s == EmptyNotice
    ensures !AllSpace(raw) ==> s == ReadBody(raw) && s != []
  {
    var body := ReadBody(raw);
    if body == [] then EmptyNotice else body
  }

  /** Reading what was shown gives the same text again: a cut body keeps its cut, since
      neither its first character nor the marker's last one is white space. */
  lemma ReadBodyIdempotent(raw: String)
    ensures ReadBody(ReadBody(raw)) == ReadBody(raw)
  {
    var body := Strip(raw);
    var r := ReadBody(raw);
    if |body| > MaxBody {
      assert r[0] == body[0];
      assert r[|r| - 1] == ']';
      StripTrimmed(r);
      assert r[..MaxBody] == body[..MaxBody];
    } else {
      StripTrimmed(body);
    }
  }

  /** The body part of `cmd_read` for the message found by its identifier (or none): nothing
      when the message is not found, otherwise the shown form of `text_body or body or ''`. */
  function ReadScreen(found: Option<Item>): (r: Option<String>)
    ensures r.None? <==> found.None?
    ensures r.Some? ==> r.value == ShownBody(BodyText(found.value))
    ensures r.Some? && AllSpace(BodyText(found.value)) ==> r.value == EmptyNotice
    ensures r.Some? ==> r.value != [] && |r.value| <= MaxBody + |TruncationMarker|
  {
    if found.None? then None else Some(ShownBody(BodyText(found.value)))
  }

  /** A message whose plain-text body is set but all white space shows the empty-body notice,
      whatever its HTML body holds: only an unset or empty `text_body` falls back to `body`. */
  lemma TextBodyWinsOverBody(item: Item)
    requires Truthy(item.textBody) && AllSpace(item.textBody.value)
    ensures ReadScreen(Some(item)) == Some(EmptyNotice)
  {
  }
}
