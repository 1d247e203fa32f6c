# Exchange mail command-line tool: the text and selection rules

The tool lists, reads, answers, marks as read and archives the unread mail of one
Microsoft Exchange mailbox. All mailbox work is done by an Exchange Web Services client
library. The tool's own logic is a small set of rules around that library:

- it derives the company's domain (`@example.com`) from the configured address;
- it classifies each sender as internal or external;
- it keeps, unless `--all` is given, only messages whose To or CC list holds the user;
- it builds one record per message, with at most 5 To and 5 CC addresses and a preview of at
  most 150 characters with no line breaks;
- `list` splits the records into an internal and an external group and shows at most ten
  external ones, followed by an "... and N more" note;
- `read` strips the body and cuts it at 3000 characters, adding a marker;
- `reply` puts `Re: ` in front of the subject unless it is already there, and quotes at most
  500 characters of the original, with `> ` at the start of every quoted line;
- `mark-read` and `archive` apply to one message by identifier, or to a batch chosen by
  `--external`, `--internal` or `--all`, and count what they did.

This project models those rules in Dafny and proves their properties.

- `wrappers.dfy` defines `Option`.
- `seqs.dfy` models Python slices and list comprehensions, the counters the batch loops
  keep, and the search for a separator that `str.split` does.
- `text.dfy` models the `str` operations the tool uses: `lower`, `strip`, `startswith`,
  `endswith`, `split`, and `replace` of one character.
- `mail.dfy` models the internal domain, the sender classification, the "addressed to me"
  test, the record of one message and the loop of `get_unread_emails`.
- `listing.dfy` models `cmd_list`, `reading.dfy` models `cmd_read`, and `reply.dfy` models
  `cmd_reply`.
- `batch.dfy` models `cmd_mark_read` and `cmd_archive`.

Everything the mail server does is an input, never an effect:

- the messages the inbox query returns;
- whether the lookup of a message by identifier finds it;
- whether a save, a move or a send succeeds or raises;
- the folder names met while walking the folder tree;
- whether the account has a trash folder;
- whether saving a new `Archive` folder succeeds.

The digest the identifiers are cut from (MD5 in the tool) is a parameter as well.

## Model

| member | source | states |
|---|---|---|
| `Text.Lower` | skills/exchange-mail/scripts/exchange_mail.py:117 | `str.lower()`: same length, each character mapped by `LowerChar` |
| `Text.LowerChar` | skills/exchange-mail/scripts/exchange_mail.py:159 | an upper-case letter becomes a lower-case one; every other character is unchanged; the result is never upper case |
| `Text.LowerIdempotent` | skills/exchange-mail/scripts/exchange_mail.py:379 | lower-casing twice is lower-casing once |
| `Text.LowerAppend` | skills/exchange-mail/scripts/exchange_mail.py:159 | lower-casing distributes over concatenation |
| `Text.LowerKeepsNonLetter` | skills/exchange-mail/scripts/exchange_mail.py:117 | a non-letter such as `@` occurs in the lower-cased text exactly when it occurs in the original |
| `Text.StartsWith` | skills/exchange-mail/scripts/exchange_mail.py:314 | `str.startswith`: the prefix is no longer than the text and agrees with it position by position |
| `Text.EndsWith` | skills/exchange-mail/scripts/exchange_mail.py:159 | `str.endswith`: the suffix is no longer than the text and agrees with its last characters position by position |
| `Text.LeadingSpaces` | skills/exchange-mail/scripts/exchange_mail.py:280 | the leading white-space run: all of it white space, and the next character is not |
| `Text.TrailingSpaces` | skills/exchange-mail/scripts/exchange_mail.py:280 | the trailing white-space run: all of it white space, and the character before it is not |
| `Text.Strip` | skills/exchange-mail/scripts/exchange_mail.py:280 | `str.strip()`: neither end of the result is white space, it is no longer than the input, and it is empty exactly when the input is all white space |
| `Text.StripEnd` | skills/exchange-mail/scripts/exchange_mail.py:280 | where the strip ends: not before the leading white space, with only white space after it, and its last character is not white space |
| `Text.StripInfix` | skills/exchange-mail/scripts/exchange_mail.py:280 | the strip is the part of the text right after its leading white space, and all around it is white space |
| `Text.StripKeepsOut` | skills/exchange-mail/scripts/exchange_mail.py:172 | a character that is not in the text is not in its strip |
| `Text.StripTrimmed` | skills/exchange-mail/scripts/exchange_mail.py:280 | a text with no white space at either end is its own strip |
| `Text.ReplaceChar` | skills/exchange-mail/scripts/exchange_mail.py:172 | `str.replace` of one character: same length; exactly the matching positions are replaced |
| `Text.Split` | skills/exchange-mail/scripts/exchange_mail.py:117 | `str.split(sep)`: at least one piece; no piece holds the separator; two or more pieces exactly when the separator occurs; the first piece is the text before the first separator |
| `Text.JoinSplit` | skills/exchange-mail/scripts/exchange_mail.py:117 | joining the pieces of a split gives the text back |
| `Text.SplitJoin` | skills/exchange-mail/scripts/exchange_mail.py:117 | splitting a join of separator-free pieces gives the pieces back |
| `Text.IndexAfterPrefix` | skills/exchange-mail/scripts/exchange_mail.py:117 | the first separator of `prefix + sep + rest` is the one after a separator-free prefix |
| `Text.Between` | skills/exchange-mail/scripts/exchange_mail.py:117 | the text between the first separator and the next one holds no separator |
| `Text.SplitSecond` | skills/exchange-mail/scripts/exchange_mail.py:117 | `s.split(sep)[1]` is the text between the first separator and the next one, or the end |
| `Text.SplitPiecesStartWith` | skills/exchange-mail/scripts/exchange_mail.py:309 | if a text starts with a prefix and every separator in it is followed by the prefix, every piece of its split starts with the prefix |
| `Seqs.Take` | skills/exchange-mail/scripts/exchange_mail.py:175-176 | a slice `s[:n]`: a prefix, of length `n` or the whole list |
| `Seqs.Filter` | skills/exchange-mail/scripts/exchange_mail.py:220-221 | a comprehension with a condition: its elements are exactly the elements of the list that meet the condition |
| `Seqs.FilterAppend` | skills/exchange-mail/scripts/exchange_mail.py:220-221 | such a comprehension distributes over concatenation, so it keeps the order |
| `Seqs.FilterPartition` | skills/exchange-mail/scripts/exchange_mail.py:220-221 | two complementary comprehensions split the list: the lengths add up and the multisets add up |
| `Seqs.Count` | skills/exchange-mail/scripts/exchange_mail.py:354 | the value of a loop's counter: at most the length; zero exactly when the element is absent |
| `Seqs.CountAppend` | skills/exchange-mail/scripts/exchange_mail.py:409-418 | counts add up over concatenation |
| `Seqs.IndexOf` | skills/exchange-mail/scripts/exchange_mail.py:117 | the search `str.split` makes for the separator: the first position of an element that occurs |
| `Seqs.FilterMap` | skills/exchange-mail/scripts/exchange_mail.py:141-182 | the list an append loop builds is never longer than its input |
| `Seqs.FilterMapSnoc` | skills/exchange-mail/scripts/exchange_mail.py:154-179 | one more loop iteration appends the new element's image exactly when the element is kept |
| `Seqs.FilterMapSelects` | skills/exchange-mail/scripts/exchange_mail.py:154-179 | every kept element has its image in the result; every element of the result is the image of a kept element |
| `Seqs.FilterMapKeepsAll` | skills/exchange-mail/scripts/exchange_mail.py:154-179 | when every element is kept, the result is the image of the whole list, in order |
| `Mail.InternalDomain` | skills/exchange-mail/scripts/exchange_mail.py:113-118 | `get_internal_domain`: empty exactly when the address has no `@`; otherwise `@` plus the lower-cased text between the first `@` and the next one (or the end); a non-empty result starts with `@` and holds no other `@` |
| `Mail.IsInternal` | skills/exchange-mail/scripts/exchange_mail.py:159 | a sender is internal only when both the sender and the domain are non-empty; an empty domain makes every sender external |
| `Mail.OnlyAtSign` | skills/exchange-mail/scripts/exchange_mail.py:159 | in `a@b`, where `a` and `b` hold no `@`, the only `@` is the one after `a` |
| `Mail.EndsWithDomain` | skills/exchange-mail/scripts/exchange_mail.py:159 | `a@b` ends with `@x` exactly when `b` is `x` |
| `Mail.SameDomainIsInternal` | skills/exchange-mail/scripts/exchange_mail.py:159 | a sender `local@host` is internal exactly when its host equals, ignoring case, the configured address's domain |
| `Mail.OwnAddressIsInternal` | skills/exchange-mail/scripts/exchange_mail.py:113-118 | the configured address, when it has exactly one `@`, is internal |
| `Mail.NoAtSignIsExternal` | skills/exchange-mail/scripts/exchange_mail.py:157-159 | a sender text without `@` is never internal |
| `Mail.MissingSenderIsExternal` | skills/exchange-mail/scripts/exchange_mail.py:157-159 | a message without a sender gets the sender `Unknown` and is classified external |
| `Mail.Addresses` | skills/exchange-mail/scripts/exchange_mail.py:149-150 | the recipient address list is never longer than the recipients |
| `Mail.AddressesMembers` | skills/exchange-mail/scripts/exchange_mail.py:149-150 | an address is in the list exactly when some recipient has it as a non-empty address, ignoring case |
| `Mail.IsDirect` | skills/exchange-mail/scripts/exchange_mail.py:151 | `user_email in to_list + cc_list`: the lower-cased user address is in the To addresses or in the CC addresses |
| `Mail.DirectIffAddressed` | skills/exchange-mail/scripts/exchange_mail.py:151 | a message is direct exactly when some To or CC recipient has a non-empty address equal to the user's, ignoring case |
| `Mail.Preview` | skills/exchange-mail/scripts/exchange_mail.py:172 | the preview has at most 150 characters, holds no newline, and has no white space at either end |
| `Mail.PreviewOfShortLine` | skills/exchange-mail/scripts/exchange_mail.py:172 | a short one-line body with no white space at its ends is its own preview |
| `Mail.SenderAddress` | skills/exchange-mail/scripts/exchange_mail.py:157 | the sender address, or `Unknown` when the message has no sender; it is unset or empty only when a sender exists without an address |
| `Mail.SenderName` | skills/exchange-mail/scripts/exchange_mail.py:158 | the sender's display name when it is non-empty, otherwise the sender address; non-empty whenever the address is |
| `Mail.IdSource` | skills/exchange-mail/scripts/exchange_mail.py:123 | the identifier key: the message id when non-empty, else the item id when non-empty, else the reception time |
| `Mail.EmailId` | skills/exchange-mail/scripts/exchange_mail.py:121-124 | the identifier has at most 8 characters, the first 8 of the digest of `message_id or id or str(datetime_received)` |
| `Mail.IdIsStable` | skills/exchange-mail/scripts/exchange_mail.py:123 | two messages with the same message id get the same identifier, whatever their other attributes |
| `Mail.ToRecord` | skills/exchange-mail/scripts/exchange_mail.py:148-177 | the record of one message: the To and CC lists are exactly the first 5 (or all) of the recipients' addresses; preview capped and without newline; subject never empty; `is_direct` is the direct test; internal implies a non-empty sender and domain. Each field is tied to its rule: `is_internal` is the classification of the sender address, the preview is `Preview` of the text body, the subject is `subject or '(No subject)'`, the sender and name are `SenderAddress`/`SenderName`, the id is `EmailId` |
| `Mail.Kept` | skills/exchange-mail/scripts/exchange_mail.py:154-155 | the loop keeps every message with `--all`; otherwise exactly those with a To or CC recipient whose non-empty address equals the user's, ignoring case |
| `Mail.Collect` | skills/exchange-mail/scripts/exchange_mail.py:141-182 | the records kept: never more than the messages; each one well formed; without `--all` each one direct |
| `Mail.CollectSelects` | skills/exchange-mail/scripts/exchange_mail.py:151-155 | without `--all` a message is kept exactly when it is direct, with `--all` always: each kept message has its record, and each record comes from a kept message |
| `Mail.CollectAll` | skills/exchange-mail/scripts/exchange_mail.py:153-155 | with `--all` there is one record per message, in order |
| `Mail.UnreadEmails` | skills/exchange-mail/scripts/exchange_mail.py:127-182 | `get_unread_emails`: the loop over the first 50 messages of the query produces exactly the records `Collect` keeps, so at most 50 of them, each well formed and, unless `--all`, direct |
| `Listing.InternalGroup` | skills/exchange-mail/scripts/exchange_mail.py:220 | the internal group holds exactly the records marked internal |
| `Listing.ExternalGroup` | skills/exchange-mail/scripts/exchange_mail.py:221 | the external group holds exactly the records not marked internal |
| `Listing.GroupsPartition` | skills/exchange-mail/scripts/exchange_mail.py:220-221 | every record lands in exactly one group: the lengths and the multisets add up |
| `Listing.GroupsKeepOrder` | skills/exchange-mail/scripts/exchange_mail.py:220-221 | both groups keep the order of the records |
| `Listing.Snippet` | skills/exchange-mail/scripts/exchange_mail.py:232-233 | a snippet is printed exactly when the preview is non-empty; it is the first min(60, length) characters of the preview followed by `...` |
| `Listing.Entries` | skills/exchange-mail/scripts/exchange_mail.py:229-234 | one entry per internal record, in order, each with the snippet of that record's preview |
| `Listing.ListScreen` | skills/exchange-mail/scripts/exchange_mail.py:211-243 | `--json` dumps every record; no records gives the empty notice; any other non-JSON listing is the overview, in which every internal record is listed with its snippet; exactly the first min(10, N) of the N external records are shown; the note appears exactly when N > 10, and its count is N − 10 |
| `Listing.ListingAccountsForAll` | skills/exchange-mail/scripts/exchange_mail.py:220-243 | the internal entries, the external records shown and the count in the note add up to the number of records |
| `Reading.ReadBody` | skills/exchange-mail/scripts/exchange_mail.py:276-282 | the stripped body when it has at most 3000 characters; otherwise exactly its first 3000 characters followed by the marker; empty exactly when the body is all white space |
| `Reading.ShownBody` | skills/exchange-mail/scripts/exchange_mail.py:284 | an all-white-space body prints `(Empty email)`; any other prints the read body |
| `Reading.ReadBodyIdempotent` | skills/exchange-mail/scripts/exchange_mail.py:280-282 | reading the read body again gives the same text: `ReadBody` is idempotent |
| `Reading.BodyText` | skills/exchange-mail/scripts/exchange_mail.py:276 | `text_body or body or ''`: the plain-text body when non-empty, else the HTML body when non-empty, else empty |
| `Reading.ReadScreen` | skills/exchange-mail/scripts/exchange_mail.py:249-284 | nothing is shown exactly when the message is not found; otherwise the shown form of its body text, never empty, at most 3000 characters plus the marker, and `(Empty email)` for an all-white-space body |
| `Reading.TextBodyWinsOverBody` | skills/exchange-mail/scripts/exchange_mail.py:276 | a set plain-text body that is all white space shows `(Empty email)` whatever the HTML body holds |
| `Reply.ReplySubject` | skills/exchange-mail/scripts/exchange_mail.py:313-315 | a missing subject counts as empty; the subject is left as it is exactly when it already starts with `re:` in any case, otherwise it becomes `Re: ` plus the subject; the result always starts with `re:` ignoring case and ends with the subject |
| `Reply.ReplySubjectIdempotent` | skills/exchange-mail/scripts/exchange_mail.py:313-315 | normalising the subject twice gives the same subject as normalising it once |
| `Reply.Quote` | skills/exchange-mail/scripts/exchange_mail.py:309 | replacing each newline by a newline and `> ` adds two characters per newline |
| `Reply.QuoteRoundTrip` | skills/exchange-mail/scripts/exchange_mail.py:309 | removing the `> ` after each newline gives the original text back |
| `Reply.QuoteMarksEveryLine` | skills/exchange-mail/scripts/exchange_mail.py:309 | in the quoted text every newline is followed by `> ` |
| `Reply.QuoteBlock` | skills/exchange-mail/scripts/exchange_mail.py:303-309 | the quoted block starts with `> ` |
| `Reply.QuotedLinesMarked` | skills/exchange-mail/scripts/exchange_mail.py:303-309 | every line of the quoted block starts with `> ` |
| `Reply.QuoteBlockRecoversOriginal` | skills/exchange-mail/scripts/exchange_mail.py:303 | the quoted block holds exactly the first 500 characters of `text_body or ''` |
| `Reply.OriginalSender` | skills/exchange-mail/scripts/exchange_mail.py:301 | the attribution names the same sender as the record (`Unknown` without a sender), and `None` as Python renders an unset address |
| `Reply.ReplyBody` | skills/exchange-mail/scripts/exchange_mail.py:298-310 | the reply body begins with the user's message unchanged and ends with the quoted block and a newline |
| `Reply.CmdReply` | skills/exchange-mail/scripts/exchange_mail.py:290-325 | nothing is sent when the message is not found; a sent reply goes to the original sender, has the subject `ReplySubject` gives (kept when it already starts with `re:`, otherwise prefixed) and the body `ReplyBody` gives (the message, the attribution and the quoted original); a refused send is reported as an error |
| `Batch.ActionOf` | skills/exchange-mail/scripts/exchange_mail.py:330-367 | a batch exactly when some batch flag is given, `--external` over `--internal` over `--all`; otherwise the message named by a non-empty target; otherwise the usage hint |
| `Batch.Select` | skills/exchange-mail/scripts/exchange_mail.py:335-342 | the batch holds exactly the records of its mode (non-internal, internal, or all of them unchanged) |
| `Batch.SelectPartition` | skills/exchange-mail/scripts/exchange_mail.py:396-403 | the external batch and the internal batch split all the records between them |
| `Batch.MarkReadBatch` | skills/exchange-mail/scripts/exchange_mail.py:348-354 | the count never exceeds the number selected; the run stops exactly when a save raises; the count is the number of successful saves before that point |
| `Batch.CmdMarkRead` | skills/exchange-mail/scripts/exchange_mail.py:328-367 | usage exactly when there is no flag and no target. A single message is not found, marked, or hits an error exactly as its lookup and save go. "Nothing to process" exactly for an empty batch. A batch reports the mode its flags chose. It finishes exactly when no save raises, and then counts its successes. It is interrupted exactly when a save raises, and then counts the successes before the first raise, fewer than the number selected |
| `Batch.ArchiveBatch` | skills/exchange-mail/scripts/exchange_mail.py:409-418 | the count is the number of moves done and the errors the number of moves that raised; together they are the number of messages found, so never more than the number selected |
| `Batch.IsArchiveName` | skills/exchange-mail/scripts/exchange_mail.py:379 | a folder is an archive folder exactly when its lower-cased name is `archive`, `архив`, `deleted items` or `удаленные` |
| `Batch.ArchiveNameIgnoresCase` | skills/exchange-mail/scripts/exchange_mail.py:379 | the test ignores case: a name and its lower-cased form are both archive names or neither is |
| `Batch.FindArchiveFolder` | skills/exchange-mail/scripts/exchange_mail.py:377-381 | the first folder whose lower-cased name is one of the archive names, or none when no folder has one |
| `Batch.AttemptsAddUp` | skills/exchange-mail/scripts/exchange_mail.py:409-418 | every looked-up message is missing, archived or an error, so the three counts add up to the batch size |
| `Batch.CmdArchive` | skills/exchange-mail/scripts/exchange_mail.py:370-436 | the destination is the first folder with an archive name, else the trash when the account has one, else a new folder. When that new folder cannot be saved, the command stops with no other report. Otherwise a batch reports the mode its flags chose and is processed exactly when its selection is non-empty; usage, a missing single message, an archived one and an archive error are reported exactly as the flags, lookup and move decide. A batch reports counts that add up to at most the number selected. Archive errors never interrupt the run |

## Left out

- Connection and credentials (`get_account`): environment variables, SSL settings and the server connection are I/O.
- The mailbox effects (`inbox.filter(...).order_by(...)`, `save`, `move`, `reply`, `root.walk`, `Folder(...).save`, `account.trash`) are remote I/O. Their results enter as inputs: the message list, one `Attempt` per message, the folder names, a trash-available flag and whether saving a new `Archive` folder succeeds.
- The date filter of the inbox query and the `time`/`date` fields of a record (`timedelta`, the UTC start of day, `strftime`) depend on the clock and the time zone. The reply's date line enters as a text parameter.
- `generate_email_id`: the MD5 digest is a parameter. Only the fallback order of its key and the 8-character cut are modelled.
- `find_email_by_id` and the `_emails_cache`/`_account` globals: the cache lookup is interleaved with a remote scan. Its outcome is part of each `Attempt`.
- `main` and argument parsing, the JSON encoding and the printed text. The model keeps what the printed text is computed from: the screens, reports and counts.
- `cmd_read` headers (the To/CC lines cut to 5, the sender and date lines) are printed text only.
- `cmd_read` unwrapping of a body object with a `.text` attribute: it depends on the client library's body types.
- `Text.LowerChar`: does not model Python's case mapping outside ASCII, Latin-1 and basic Cyrillic. Characters in other scripts are left unchanged. Python also maps a few characters, such as U+0130, to two characters.
- An empty or missing To/CC list (`item.to_recipients or []`) is an empty sequence. `None` and `[]` are not told apart because the tool treats them alike.
