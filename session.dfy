/**
 * One client session (`handleClient`): each chunk read from the connection
 * is split on blanks, dispatched on its first field, and answered with one
 * newline-terminated line.
 */
module Session {
  import opened GoStrings
  import opened Config
  import opened Ledger

  const NotImplementedReply := "500 Not implemented"
  const InvalidInputReply := "500 Invalid Input"

  /** What a request line asks for, once split. */
  datatype Command =
    | Get(key: string)     // `get <key> ...`
    | Put                  // `put ...`
    | Invalid              // any other first field
    | MissingArgument      // exactly `get`: the second field is indexed but absent

  /**
   * The dispatch of `handleClient`: `strings.SplitN(line, " ", 3)`, then a
   * switch on the first part. The verb must match exactly, so `get` followed
   * by a newline is not the verb `get`.
   */
  function Classify(line: string): (c: Command)
    ensures c == MissingArgument <==> line == "get"
    ensures c.Get? <==> |line| >= 4 && line[..4] == "get "
  {
    var sa := SplitN(line, 3);
    SplitNFields(line, 3);
    FieldIs(line, "get");
    if sa[0] == "get" then
      if |sa| < 2 then MissingArgument
      else
        assert line[..4] == "get ";
        Get(TrimSpace(sa[1]))
    else if sa[0] == "put" then Put
    else Invalid
  }

  /**
   * The command in terms of the line itself: `get ` then the address (the
   * second blank-separated field, trimmed), `put` as the whole first field,
   * and every other first field is invalid input.
   */
  lemma ClassifyByFields(line: string)
    ensures Classify(line).Get? ==> Classify(line).key == TrimSpace(Field(line[4..]))
    ensures Classify(line) == Put <==> Field(line) == "put"
    ensures Classify(line) == Invalid <==> Field(line) != "get" && Field(line) != "put"
  {
    SplitNFields(line, 3);
    FieldIs(line, "get");
    FieldIs(line, "put");
    if Classify(line).Get? {
      assert line[4..] == line[|Field(line)| + 1..];
    }
  }

  /** `reply`: the text sent for a reply is the reply followed by one newline. */
  function Frame(s: string): (wire: string)
    ensures |wire| == |s| + 1
    ensures wire[..|s|] == s && wire[|s|] == '\n'
  {
    s + "\n"
  }

  /** A reply without newlines is framed as exactly one line. */
  lemma FrameIsOneLine(s: string)
    requires '\n' !in s
    ensures forall k :: 0 <= k < |Frame(s)| ==> (Frame(s)[k] == '\n' <==> k == |s|)
  {
    forall k | 0 <= k < |Frame(s)|
      ensures Frame(s)[k] == '\n' <==> k == |s|
    {
      if k < |s| { assert Frame(s)[k] == s[k]; }
    }
  }

  /** A line sent on the connection ends with a newline. */
  predicate EndsLine(wire: string) {
    |wire| > 0 && wire[|wire| - 1] == '\n'
  }

  /** What handling one chunk produces: a line on the connection, or a crash. */
  datatype Output = Sent(wire: string) | Panic

  datatype Step = Step(rows: Rows, out: Output)

  /**
   * Handling one request line against the table: `get` runs the lookup
   * and sends its reply, `put` and other verbs send fixed replies, and a bare
   * `get` crashes before anything is sent. Only a lookup touches the table,
   * and it never changes an existing record.
   */
  function HandleSpec(rows: Rows, line: string, now: int, faults: Faults, cfg: Settings): (r: Step)
    ensures r.out == Panic <==> line == "get"
    ensures r.out.Sent? ==> EndsLine(r.out.wire)
    ensures rows.Keys <= r.rows.Keys
    ensures forall k :: k in rows ==> r.rows[k] == rows[k]
  {
    Respond(rows, Classify(line), now, faults, cfg)
  }

  /** The answer to a command, and the table after it. */
  function Respond(rows: Rows, c: Command, now: int, faults: Faults, cfg: Settings): (r: Step)
    ensures r.out == Panic <==> c == MissingArgument
    ensures r.out.Sent? ==> EndsLine(r.out.wire)
    ensures !c.Get? ==> r.rows == rows
    ensures rows.Keys <= r.rows.Keys
    ensures forall k :: k in rows ==> r.rows[k] == rows[k]
  {
    match c
    case Get(key) =>
      var o := LookupSpec(rows, key, now, cfg.validTime, faults);
      Step(o.rows, Sent(Frame(Render(o.verdict, cfg))))
    case Put => Step(rows, Sent(Frame(NotImplementedReply)))
    case Invalid => Step(rows, Sent(Frame(InvalidInputReply)))
    case MissingArgument => Step(rows, Panic)
  }

  /**
   * Dispatch by the first field of the line: `get <field> ...` answers the
   * lookup of the trimmed second field, `put` answers "not implemented",
   * any other first field answers "invalid input", and a bare `get` crashes.
   */
  lemma DispatchByVerb(rows: Rows, line: string, now: int, faults: Faults, cfg: Settings)
    ensures var r := HandleSpec(rows, line, now, faults, cfg);
      && (|line| >= 4 && line[..4] == "get " ==>
            var o := LookupSpec(rows, TrimSpace(Field(line[4..])), now, cfg.validTime, faults);
            r == Step(o.rows, Sent(Render(o.verdict, cfg) + "\n")))
      && (Field(line) == "put" ==> r == Step(rows, Sent("500 Not implemented\n")))
      && (Field(line) != "get" && Field(line) != "put" ==> r == Step(rows, Sent("500 Invalid Input\n")))
      && (line == "get" ==> r == Step(rows, Panic))
  {
    ClassifyByFields(line);
    assert Frame(NotImplementedReply) == "500 Not implemented\n";
    assert Frame(InvalidInputReply) == "500 Invalid Input\n";
  }

  /** With valid templates, every line the service sends starts `[245]00 \w`. */
  lemma RepliesAreWellFormed(rows: Rows, line: string, now: int, faults: Faults, cfg: Settings)
    requires CheckReplies(cfg) == ConfOk
    ensures var r := HandleSpec(rows, line, now, faults, cfg);
      r.out.Sent? ==> ValidReply(r.out.wire)
  {
    ResponsesAreWellFormed(rows, Classify(line), now, faults, cfg);
  }

  lemma ResponsesAreWellFormed(rows: Rows, c: Command, now: int, faults: Faults, cfg: Settings)
    requires ValidReply(cfg.addrGood) && ValidReply(cfg.addrBad)
    ensures var r := Respond(rows, c, now, faults, cfg);
      r.out.Sent? ==> ValidReply(r.out.wire)
  {
    FixedRepliesAreValid();
    match c
    case Get(key) =>
      FramedReplyIsValid(Render(LookupSpec(rows, key, now, cfg.validTime, faults).verdict, cfg));
    case Put =>
      FramedReplyIsValid(NotImplementedReply);
    case Invalid =>
      FramedReplyIsValid(InvalidInputReply);
    case MissingArgument =>
  }

  /** The two fixed replies carry a permanent-failure code. */
  lemma FixedRepliesAreValid()
    ensures ValidReply(NotImplementedReply) && NotImplementedReply[0] == '5'
    ensures ValidReply(InvalidInputReply) && InvalidInputReply[0] == '5'
  {
  }

  /** Framing keeps a reply's status code in front. */
  lemma FramedReplyIsValid(reply: string)
    requires ValidReply(reply)
    ensures ValidReply(Frame(reply))
  {
    assert Frame(reply)[..5] == reply[..5];
  }

  /** One chunk read from the connection, with the clock and the faults it meets. */
  datatype Request = Request(line: string, now: int, faults: Faults)

  /** The table after a session, what was sent, in order, and whether it crashed. */
  datatype Transcript = Transcript(rows: Rows, sent: seq<string>, panicked: bool)

  /**
   * The loop of `handleClient`: requests are answered strictly in order, one
   * line each, until the input ends or a request crashes the handler.
   */
  function SessionSpec(rows: Rows, reqs: seq<Request>, cfg: Settings): (t: Transcript)
    ensures |t.sent| <= |reqs|
    ensures !t.panicked ==> |t.sent| == |reqs|
    decreases |reqs|
  {
    if |reqs| == 0 then Transcript(rows, [], false)
    else
      var st := HandleSpec(rows, reqs[0].line, reqs[0].now, reqs[0].faults, cfg);
      match st.out
      case Panic => Transcript(rows, [], true)
      case Sent(wire) =>
        var rest := SessionSpec(st.rows, reqs[1..], cfg);
        Transcript(rest.rows, [wire] + rest.sent, rest.panicked)
  }

  /**
   * Over a whole session every line sent is newline-terminated, the table
   * only gains records, and no existing record is changed.
   */
  lemma {:induction false} SessionOnlyAdds(rows: Rows, reqs: seq<Request>, cfg: Settings)
    ensures var t := SessionSpec(rows, reqs, cfg);
      && (forall k :: 0 <= k < |t.sent| ==> EndsLine(t.sent[k]))
      && rows.Keys <= t.rows.Keys
      && (forall a :: a in rows ==> t.rows[a] == rows[a])
    decreases |reqs|
  {
    if |reqs| > 0 {
      var st := HandleSpec(rows, reqs[0].line, reqs[0].now, reqs[0].faults, cfg);
      SessionStep(rows, reqs, cfg, st);
      if st.out.Sent? {
        var rest := SessionSpec(st.rows, reqs[1..], cfg);
        SessionOnlyAdds(st.rows, reqs[1..], cfg);
        var sent := [st.out.wire] + rest.sent;
        forall k | 0 <= k < |sent| ensures EndsLine(sent[k]) {
          if k > 0 { assert sent[k] == rest.sent[k - 1]; }
        }
      }
    }
  }

  /** The dispatch step of `handleClient` for one chunk. */
  method HandleLine(db: Store, line: string, now: int, faults: Faults, cfg: Settings) returns (out: Output)
    modifies db
    ensures HandleSpec(old(db.rows), line, now, faults, cfg) == Step(db.rows, out)
  {
    var sa := SplitN(line, 3);
    SplitNFields(line, 3);
    if sa[0] == "get" {
      if |sa| < 2 {
        // sa[1] is out of range: the handler panics
        return Panic;
      }
      var value := db.Lookup(TrimSpace(sa[1]), now, cfg, faults);
      out := Sent(Frame(value));
    } else if sa[0] == "put" {
      out := Sent(Frame(NotImplementedReply));
    } else {
      out := Sent(Frame(InvalidInputReply));
    }
  }

  /** `handleClient`: answer each request in turn until the input ends or a crash. */
  method HandleClient(db: Store, reqs: seq<Request>, cfg: Settings) returns (sent: seq<string>, panicked: bool)
    modifies db
    ensures SessionSpec(old(db.rows), reqs, cfg) == Transcript(db.rows, sent, panicked)
  {
    sent, panicked := [], false;
    var i := 0;
    while i < |reqs|
      invariant 0 <= i <= |reqs|
      invariant SessionSpec(old(db.rows), reqs, cfg) == Resume(sent, SessionSpec(db.rows, reqs[i..], cfg))
    {
      ghost var before := db.rows;
      var out := HandleLine(db, reqs[i].line, reqs[i].now, reqs[i].faults, cfg);
      SessionAdvance(old(db.rows), reqs, cfg, i, sent, before, Step(db.rows, out));
      if out.Panic? {
        panicked := true;
        return;
      }
      sent := sent + [out.wire];
      i := i + 1;
    }
    assert reqs[i..] == [];
  }

  /** The loop invariant of `HandleClient` carried over one request. */
  lemma SessionAdvance(rows0: Rows, reqs: seq<Request>, cfg: Settings, i: nat, sent: seq<string>, rows: Rows, st: Step)
    requires i < |reqs|
    requires SessionSpec(rows0, reqs, cfg) == Resume(sent, SessionSpec(rows, reqs[i..], cfg))
    requires st == HandleSpec(rows, reqs[i].line, reqs[i].now, reqs[i].faults, cfg)
    ensures st.out.Panic? ==> SessionSpec(rows0, reqs, cfg) == Transcript(rows, sent, true) && st.rows == rows
    ensures st.out.Sent? ==>
      SessionSpec(rows0, reqs, cfg) == Resume(sent + [st.out.wire], SessionSpec(st.rows, reqs[i + 1..], cfg))
  {
    assert reqs[i..][0] == reqs[i];
    SessionStep(rows, reqs[i..], cfg, st);
    if st.out.Sent? {
      assert reqs[i..][1..] == reqs[i + 1..];
      var rest := SessionSpec(st.rows, reqs[i + 1..], cfg);
      assert sent + ([st.out.wire] + rest.sent) == (sent + [st.out.wire]) + rest.sent;
    }
  }

  /** A session that has already sent `sent` and goes on as `rest`. */
  function Resume(sent: seq<string>, rest: Transcript): Transcript {
    Transcript(rest.rows, sent + rest.sent, rest.panicked)
  }

  /** One turn of the session: the first request is handled, then the rest. */
  lemma SessionStep(rows: Rows, reqs: seq<Request>, cfg: Settings, st: Step)
    requires |reqs| > 0
    requires st == HandleSpec(rows, reqs[0].line, reqs[0].now, reqs[0].faults, cfg)
    ensures st.out.Panic? ==> SessionSpec(rows, reqs, cfg) == Transcript(rows, [], true)
    ensures st.out.Sent? ==>
      SessionSpec(rows, reqs, cfg) == Resume([st.out.wire], SessionSpec(st.rows, reqs[1..], cfg))
  {
  }

  /**
   * Scenario: a fresh table, `get <addr>` (for instance `get foo@example.org`)
   * is trusted and creates the record of `addr`.
   */
  lemma FirstGetIsTrusted(addr: string, now: int)
    requires ' ' !in addr && Trimmed(addr)
    ensures var r := HandleSpec(map[], "get " + addr + "\n", now, NoFaults, Defaults);
      r.out == Sent("200 root\n") && r.rows == map[addr := Record(now, 0)]
  {
    GetLine(addr);
    assert LookupSpec(map[], addr, now, 336, NoFaults) == Outcome(map[addr := Record(now, 0)], Trusted);
    assert Frame("200 root") == "200 root\n";
  }

  /**
   * Scenario: a record first seen 400 units ago, with the default lifetime
   * of 336, is refused.
   */
  lemma StaleAddressIsRefused(addr: string, now: int)
    requires ' ' !in addr && Trimmed(addr)
    ensures var rows := map[addr := Record(now - 400, 0)];
      HandleSpec(rows, "get " + addr + "\n", now, NoFaults, Defaults)
        == Step(rows, Sent("500 Unknown User\n"))
  {
    GetLine(addr);
    var rows := map[addr := Record(now - 400, 0)];
    assert LookupSpec(rows, addr, now, 336, NoFaults) == Outcome(rows, Rejected);
    assert Frame("500 Unknown User") == "500 Unknown User\n";
  }

  /** A line `get <addr>` and a newline asks for `addr`. */
  lemma GetLine(addr: string)
    requires ' ' !in addr && Trimmed(addr)
    ensures Classify("get " + addr + "\n") == Get(addr)
  {
    var line := "get " + addr + "\n";
    var arg := addr + "\n";
    assert line[..4] == "get " && line[4..] == arg;
    assert ' ' !in arg;
    FieldIs(arg, arg);
    TrimNewline(addr);
  }

  /** Scenario: with the database unreachable every `get` is a temporary failure. */
  lemma UnreachableStoreDefers(rows: Rows, addr: string, now: int, cfg: Settings)
    ensures HandleSpec(rows, "get " + addr, now, Faults(true, false, false), cfg)
      == Step(rows, Sent("400 DB lookup error\n"))
  {
    var line := "get " + addr;
    assert line[..4] == "get ";
    var c := Classify(line);
    var faults := Faults(true, false, false);
    assert LookupSpec(rows, c.key, now, cfg.validTime, faults) == Outcome(rows, StoreFault);
    assert Frame(DbErrorReply) == "400 DB lookup error\n";
  }

  /** Scenario: `put` with any arguments (`put foo bar`) is not implemented. */
  lemma PutIsNotImplemented(rows: Rows, args: string, now: int, faults: Faults, cfg: Settings)
    ensures HandleSpec(rows, "put " + args, now, faults, cfg) == Step(rows, Sent("500 Not implemented\n"))
  {
    var line := "put " + args;
    assert line[..4] == "put" + " ";
    FieldIs(line, "put");
    ClassifyByFields(line);
    assert Frame(NotImplementedReply) == "500 Not implemented\n";
  }

  /**
   * Scenarios: an empty line, and a verb with the line terminator still
   * attached (`get` or `put` directly followed by a newline), are invalid input.
   */
  lemma UnknownLinesAreInvalid(rows: Rows, now: int, faults: Faults, cfg: Settings)
    ensures HandleSpec(rows, "", now, faults, cfg) == Step(rows, Sent("500 Invalid Input\n"))
    ensures HandleSpec(rows, "get\n", now, faults, cfg) == Step(rows, Sent("500 Invalid Input\n"))
    ensures HandleSpec(rows, "put\n", now, faults, cfg) == Step(rows, Sent("500 Invalid Input\n"))
  {
    assert Frame(InvalidInputReply) == "500 Invalid Input\n";
    ClassifyByFields("");
    FieldIs("get\n", "get\n");
    ClassifyByFields("get\n");
    FieldIs("put\n", "put\n");
    ClassifyByFields("put\n");
  }

  /** Scenario: a bare `get` crashes the handler and sends nothing. */
  lemma BareGetPanics(rows: Rows, now: int, faults: Faults, cfg: Settings)
    ensures HandleSpec(rows, "get", now, faults, cfg) == Step(rows, Panic)
  {
  }
}
