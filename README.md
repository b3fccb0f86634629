# junkmap greylisting service — Dafny model

junkmap answers a mail server's question "should mail for this address be
accepted?" over a line protocol. A client sends `get <address>`. The
service looks the address up in its ledger, the `junk` table of an SQLite
file, and answers with one line:

- the configured `AddrGood` template (default `200 root`) while the address
  is trusted;
- the `AddrBad` template (default `500 Unknown User`) once a non-permanent
  record is older than the configured lifetime `ValidTime` (default 336
  hours);
- `400 DB lookup error` when the database cannot be opened, queried or
  written.

An address seen for the first time gets a new record, first seen now and not
permanent, and is trusted. `put` always answers `500 Not implemented`; any
other verb answers `500 Invalid Input`. At start-up both templates must match
`^[245]00 \w`, otherwise the process stops.

The model has four modules:

- `GoStrings` (`go_strings.dfy`): the semantics of Go's
  `strings.SplitN(s, " ", n)` and `strings.TrimSpace`, on which the request
  parser depends. Each is related to an independent description of its
  result:
  - `SplitN` is related to `JoinBlank` (its inverse) and to `Field` (the
    first blank-separated field);
  - `TrimSpace` is characterised as "the infix left after removing white
    space at both ends".
- `Config` (`config.dfy`): the `Settings` record, the defaults and the
  template check of `read_conf`. The direct five-character check
  `ValidReply` is proved equal to a small atom-by-atom matcher for the
  pattern `^[245]00 \w`.
- `Ledger` (`ledger.dfy`): the `junk` table as a map from address to
  `Record(firstSeen, perm)`, and `lookup`:
  - `LookupSpec` is the functional specification;
  - `Store.Lookup` is the imperative operation on a `Store` object that owns
    the table. It follows the order of the Go code and is proved against
    `LookupSpec`.
  - Database faults are an explicit `Faults(open, scan, insert)` input.
  - The clock reading `now` is a parameter, in the same integer unit as
    `ValidTime`.
- `Session` (`session.dfy`): `handleClient`:
  - the dispatch of one chunk (`Classify`, `Respond`, `HandleSpec` and the
    method `HandleLine`);
  - reply framing (`Frame`);
  - the session loop (`SessionSpec` and the method `HandleClient`), with
    each chunk read from the connection as a `Request` carrying its clock
    reading and its faults.

A bare `get`, with no blank after the verb, makes the Go code index `sa[1]`
out of range (junkmap.go:96). A reader might expect a malformed line to
answer `500 Invalid Input`; the code panics instead. Nothing recovers the
panic, so after the deferred `conn.Close()` runs the whole process exits:
the listener and every other connection go down with it, and one client
sending a bare `get` stops the service. The model follows the code: such a
line is a `Panic` output, and the session stops there without a reply. By
contrast, `get` followed by a newline (the usual form from a line-oriented
client) has the first field `get\n`, which is not the verb `get`, so it
answers `500 Invalid Input`.

## Model

| member | source | states |
|---|---|---|
| `Ledger.Store.Lookup` | junkmap.go:107-134 | Each step of `lookup` on the table object:<br>- the new table is the one `LookupSpec` gives;<br>- the reply is that outcome's verdict rendered with the configured templates, or `db_error`'s text. |
| `Ledger.Store.constructor` | junkmap.go:152-157 | A freshly created `junk` table holds no records. |
| `Ledger.LookupSpec` | junkmap.go:107-134 | No record is changed or removed, only `key` can be added, and at most one record is added.<br>A fault happens exactly when the open or the query fails, or when the key is missing and the insert fails; a fault leaves the table unchanged.<br>Otherwise:<br>- the key is present;<br>- a miss stores `(now, 0)`;<br>- the verdict is Rejected exactly when the record is non-permanent and older than the lifetime. |
| `Ledger.Expired` | junkmap.go:130 | The rejection condition `p == 0 && age > ValidTime`. Its meaning is fixed by `ExistingRecordVerdict`, `BoundaryIsTrusted` and `PermanentIsTrusted`, and `LookupSpec` rejects exactly when it holds. |
| `Ledger.Judge` | junkmap.go:130-133 | The verdict of a record read or created without a fault: Rejected when `Expired` holds, Trusted otherwise; `LookupSpec`'s contract states it. |
| `Ledger.Render` | junkmap.go:130-140 | With valid templates every reply matches `^[245]00 \w`; a fault renders as exactly `400 DB lookup error`, a temporary-failure code. |
| `Ledger.UnseenAddressIsTrusted` | junkmap.go:119-124 | An unseen address gets exactly one new record `(now, 0)`, the table grows by one, and the verdict is Trusted. |
| `Ledger.ExistingRecordVerdict` | junkmap.go:130-133 | An existing non-permanent record is rejected exactly when its age is strictly greater than the lifetime, and trusted exactly when it is at most the lifetime. The table is unchanged. |
| `Ledger.BoundaryIsTrusted` | junkmap.go:130 | An age equal to the lifetime is trusted. |
| `Ledger.PermanentIsTrusted` | junkmap.go:130-133 | A record with `perm != 0` is trusted whatever its age, and the table is unchanged. |
| `Ledger.FaultsChangeNothing` | junkmap.go:108-139 | Any open, query or insert failure answers exactly `400 DB lookup error` and leaves the table as it was; a failed insert adds no record. |
| `Ledger.LookupIdempotent` | junkmap.go:117-124 | After a first lookup that did not fail, a second lookup of the same key at the same time adds nothing, and when neither lookup fails it gives the same verdict. |
| `Ledger.RejectionIsFinal` | junkmap.go:128-133 | A rejected address is rejected (or meets a fault) at every later time, since nothing renews a record. |
| `Ledger.LookupsOnlyAdd` | junkmap.go:117-124 | After any sequence of lookups, records are never changed or removed, only the looked-up keys are added, and the table grows by at most one record per lookup. |
| `Session.Classify` | junkmap.go:93-102 | The line is the missing-argument case exactly when it is `get`, and a lookup exactly when it starts `get ` (verb, blank). |
| `Session.ClassifyByFields` | junkmap.go:93-96 | The looked-up key is the trimmed second blank-separated field. The verb `put` is exactly a first field `put`. Invalid input is exactly a first field that is neither `get` nor `put`. |
| `Session.DispatchByVerb` | junkmap.go:93-102 | The whole reply per verb:<br>- `get <f> ...` sends the lookup reply of the trimmed `f` plus a newline;<br>- `put` sends `500 Not implemented\n`;<br>- any other verb sends `500 Invalid Input\n`;<br>- a bare `get` crashes. |
| `Session.Respond` | junkmap.go:94-102 | Only a bare `get` crashes, and every sent line ends in a newline. Only `get` touches the table; it never removes or changes a record. |
| `Session.HandleSpec` | junkmap.go:93-102 | One chunk is handled. It crashes exactly when the chunk is `get`. Otherwise it sends a newline-terminated line and leaves every existing record as it was. |
| `Session.HandleLine` | junkmap.go:93-102 | The imperative dispatch on the `Store` ends in the table and the output that `HandleSpec` gives. |
| `Session.Frame` | junkmap.go:142-144 | `reply` sends the text followed by exactly one newline, and nothing else. |
| `Session.FrameIsOneLine` | junkmap.go:143 | A reply without newlines goes out as exactly one line: its only newline is the final one. |
| `Session.RepliesAreWellFormed` | junkmap.go:47-53 | When the templates pass the start-up check, every line sent matches `^[245]00 \w`. |
| `Session.ResponsesAreWellFormed` | junkmap.go:94-102 | Every reply to a command, framed, starts with a valid status code when the two templates do. |
| `Session.FixedRepliesAreValid` | junkmap.go:99-101 | `500 Not implemented` and `500 Invalid Input` are valid replies with a permanent-failure code. |
| `Session.FramedReplyIsValid` | junkmap.go:142-143 | Framing a valid reply keeps it valid. |
| `Session.SessionSpec` | junkmap.go:86-103 | A session sends at most one line per request, and exactly one per request unless it crashes. |
| `Session.SessionOnlyAdds` | junkmap.go:86-103 | Over a whole session every line sent ends in a newline, the table only gains records, and no existing record is changed. |
| `Session.HandleClient` | junkmap.go:83-103 | The loop answers the requests in order. It stops at the first crash. The lines sent, the crash flag and the final table are those of `SessionSpec`. |
| `Session.SessionAdvance` | junkmap.go:86-103 | The session specification carried over one handled request (the loop invariant of `HandleClient`). |
| `Session.FirstGetIsTrusted` | junkmap.go:119-124 | On an empty table with the defaults, `get <addr>` and a newline answers `200 root\n` and creates the record `(now, 0)`. |
| `Session.StaleAddressIsRefused` | junkmap.go:130-131 | With the defaults, a record first seen 400 hours ago answers `500 Unknown User\n`. |
| `Session.GetLine` | junkmap.go:93-96 | `get <addr>` and a newline asks for `addr`, without the newline. |
| `Session.UnreachableStoreDefers` | junkmap.go:108-111 | With the database unreachable, any `get` answers `400 DB lookup error\n` and changes nothing. |
| `Session.PutIsNotImplemented` | junkmap.go:98-99 | `put` with any arguments answers `500 Not implemented\n` and changes nothing. |
| `Session.UnknownLinesAreInvalid` | junkmap.go:100-101 | An empty chunk, and `get` or `put` followed directly by a newline, answer `500 Invalid Input\n`. |
| `Session.BareGetPanics` | junkmap.go:95-96 | A chunk that is exactly `get` crashes the handler with nothing sent. |
| `Config.CheckReplies` | junkmap.go:47-53 | The check accepts exactly when both templates match `^[245]00 \w`. `AddrGood` is checked first and is the one reported when it fails; `AddrBad` is reported only when `AddrGood` passes. |
| `Config.ValidReply` | junkmap.go:47-48 | `validAddr.MatchString`: a template is valid when it starts with one of `2`, `4`, `5`, then `00`, a blank and a word character. `ValidReplyIsPatternMatch` proves it equal to the anchored match of `^[245]00 \w`. |
| `Config.ValidReplyIsPatternMatch` | junkmap.go:47 | The direct five-character test and the atom-by-atom pattern match agree on every string. |
| `Config.MatchesPrefixPointwise` | junkmap.go:47 | An anchored pattern of single-character atoms matches exactly when each of its atoms matches the character at the same position. |
| `Config.MatchesPrefixExtends` | junkmap.go:48 | A pattern that matches the start of a string also matches the start of every extension of it. |
| `Config.ValidReplyIgnoresTail` | junkmap.go:47 | Appending text never makes a valid template invalid, and once a template has five characters appending text never changes its validity. |
| `Config.DefaultsAreValid` | junkmap.go:28-34 | The built-in defaults pass the start-up check, and their lifetime is not negative. |
| `Config.Defaults` | junkmap.go:28-34 | The built-in settings: `127.0.0.1:2000`, `junkmap.db`, a lifetime of 336 hours, `200 root` and `500 Unknown User`. `DefaultsAreValid` proves they pass the start-up check. |
| `GoStrings.IndexOfBlank` | junkmap.go:93 | The first blank of the string, or its length when it has none: no blank comes before it. |
| `GoStrings.Field` | junkmap.go:94 | The first field is a blank-free prefix of the line, followed by a blank when it is not the whole line. |
| `GoStrings.FieldIs` | junkmap.go:94-98 | The first field is `w` exactly when the line is `w` alone, or `w` followed by a blank. |
| `GoStrings.SplitN` | junkmap.go:93 | `SplitN(s, " ", n)`:<br>- gives between 1 and `n` parts;<br>- the parts joined with single blanks give back `s`;<br>- every part but the last is blank-free;<br>- the last part is blank-free too when there are fewer than `n` parts. |
| `GoStrings.SplitNFields` | junkmap.go:93-96 | The first part is the first field. There is a second part exactly when the line contains a blank, and for `n = 3` it is the second field. |
| `GoStrings.TrimLeftIsSuffix` | junkmap.go:96 | The left trim drops a white-space prefix and stops at the first other character. |
| `GoStrings.TrimRightIsPrefix` | junkmap.go:96 | The right trim drops a white-space suffix and stops at the last other character. |
| `GoStrings.TrimSpace` | junkmap.go:96 | `strings.TrimSpace`: the result is never longer than its input. `TrimSpaceIsInfix` pins it down as the infix between a white-space prefix and a white-space suffix, with no white space at either end. |
| `GoStrings.TrimSpaceIsInfix` | junkmap.go:96 | `TrimSpace(s)` is the infix of `s` between a white-space prefix and a white-space suffix, and it neither starts nor ends with white space. |
| `GoStrings.TrimSpaceIdempotent` | junkmap.go:96 | Trimming twice is trimming once. |
| `GoStrings.TrimNewline` | junkmap.go:96 | Trimming an already trimmed address followed by a newline gives back the address. |
| `GoStrings.TrimmedIsFixed` | junkmap.go:96 | Trimming a string with no white space at either end leaves it as it is. |

## Left out

- Networking: the TCP listener, the accept loop and the goroutine per connection. A session is the list of chunks `conn.Read` returned, one request per chunk; read errors and connection closing end the list.
- Logging: `log.Print` has no effect on replies. `log.Fatal` in `read_conf` is the non-`ConfOk` result of `CheckReplies`.
- Reading the configuration: opening the file, JSON decoding and the `-config` flag.
- SQL: the SQL text, the driver, and the database schema versioning of `db_check` and `db_create`. The table is a map, and database failures are the `Faults` input.
- Wall-clock time: time is one integer unit shared by the clock, `firstSeen` and `ValidTime`. There is no floating-point `Hours()`, no `time.Duration` saturation and no time zone.
- The two clock reads of `lookup`: the Go code reads the clock once for `t` after an insert and once more for `now`. The model uses one reading, so a new record's age is 0 rather than a few nanoseconds. This changes a verdict only when `ValidTime` is 0: the source then rejects a brand-new address (its age is above 0 hours), while the model trusts it.
- The stored timestamp: a new row stores the database's own `CURRENT_TIMESTAMP`. Later lookups read that value back, which the model takes to equal `now`.
- Ledger.Store.Lookup: the error from `db.Prepare` at line 121 is discarded. A failed prepare would make `insert.Exec` panic on a nil statement; the model treats every prepare as successful and covers only the `Exec` failure (the `insert` fault).
- Concurrency: concurrent sessions, and the race between two connections inserting the same new address (the loser gets a primary-key failure, i.e. `db_error`). Each lookup is modelled as atomic.
- Text encoding: Go strings are UTF-8 bytes; the model uses characters. `TrimSpace` removes the same white-space characters as Go's `unicode.IsSpace`. A chunk cut inside a multi-byte character is not modelled.
- The address field is not validated: the `VARCHAR(32)` length in the schema is not enforced by SQLite and is not modelled.
- junkmap.go checks no domain suffix on the address, so the model has none.
- Session.SessionSpec: a `Panic` ends only the modelled session; in the source it ends the whole process, with every other session and the listener.
- Ledger.UnseenAddressIsTrusted: holds for `validTime >= 0` under the single clock reading; with `ValidTime = 0` the source, reading the clock twice, rejects the new address instead.
