/**
 * The service's settings and the start-up check `read_conf` applies to the two
 * configurable replies: each must match the regular expression `^[245]00 \w`.
 */
module Config {

  /**
   * The `Settings` record. `validTime` is the lifetime of a non-permanent
   * record, in the same integer time unit as the clock (hours in the source).
   */
  datatype Settings = Settings(
    service: string,    // address to listen on
    database: string,   // database file
    validTime: int,     // lifetime of a non-permanent record
    addrGood: string,   // reply for a trusted address
    addrBad: string)    // reply for an expired address

  /** The built-in defaults, used until a configuration file replaces them. */
  const Defaults := Settings("127.0.0.1:2000", "junkmap.db", 336, "200 root", "500 Unknown User")

  /** The regular-expression class `\w`: ASCII letters, digits and underscore. */
  predicate IsWordChar(c: char) {
    ('a' <= c <= 'z') || ('A' <= c <= 'Z') || ('0' <= c <= '9') || c == '_'
  }

  /** Whether a reply template is acceptable: it matches `^[245]00 \w`. */
  predicate ValidReply(s: string) {
    && |s| >= 5
    && s[0] in "245"
    && s[1] == '0' && s[2] == '0' && s[3] == ' '
    && IsWordChar(s[4])
  }

  /*
   * An independent reading of the same check: the pattern as a sequence of
   * single-character atoms, matched at the start of the string (`^`) and
   * unanchored at the end, as Go's `MatchString` does.
   */

  datatype Atom = Lit(c: char) | OneOf(cs: string) | Word

  predicate AtomMatches(a: Atom, c: char) {
    match a
    case Lit(d) => c == d
    case OneOf(cs) => c in cs
    case Word => IsWordChar(c)
  }

  /** Whether some prefix of `s` matches the atoms of `p` one by one. */
  predicate MatchesPrefix(p: seq<Atom>, s: string) {
    |p| == 0 || (|s| > 0 && AtomMatches(p[0], s[0]) && MatchesPrefix(p[1..], s[1..]))
  }

  /** `^[245]00 \w` */
  const ReplyPattern: seq<Atom> := [OneOf("245"), Lit('0'), Lit('0'), Lit(' '), Word]

  /** Matching a prefix is matching position by position. */
  lemma {:induction false} MatchesPrefixPointwise(p: seq<Atom>, s: string)
    ensures MatchesPrefix(p, s) <==>
      |p| <= |s| && forall k :: 0 <= k < |p| ==> AtomMatches(p[k], s[k])
  {
    if |p| > 0 && |s| > 0 {
      MatchesPrefixPointwise(p[1..], s[1..]);
      if AtomMatches(p[0], s[0]) && MatchesPrefix(p[1..], s[1..]) {
        forall k | 0 <= k < |p| ensures AtomMatches(p[k], s[k]) {
          if k > 0 { assert p[1..][k - 1] == p[k] && s[1..][k - 1] == s[k]; }
        }
      }
      if |p| <= |s| && forall k :: 0 <= k < |p| ==> AtomMatches(p[k], s[k]) {
        forall k | 0 <= k < |p| - 1 ensures AtomMatches(p[1..][k], s[1..][k]) {
          assert AtomMatches(p[k + 1], s[k + 1]);
        }
      }
    }
  }

  /** The direct check and the pattern match agree on every string. */
  lemma ValidReplyIsPatternMatch(s: string)
    ensures ValidReply(s) <==> MatchesPrefix(ReplyPattern, s)
  {
    MatchesPrefixPointwise(ReplyPattern, s);
    if |s| >= 5 {
      assert (forall k :: 0 <= k < 5 ==> AtomMatches(ReplyPattern[k], s[k])) <==>
        AtomMatches(OneOf("245"), s[0]) && AtomMatches(Lit('0'), s[1]) && AtomMatches(Lit('0'), s[2])
        && AtomMatches(Lit(' '), s[3]) && AtomMatches(Word, s[4]);
    }
  }

  /** A pattern that matches a prefix of `s` matches every extension of `s`. */
  lemma {:induction false} MatchesPrefixExtends(p: seq<Atom>, s: string, t: string)
    requires MatchesPrefix(p, s)
    ensures MatchesPrefix(p, s + t)
  {
    if |p| > 0 {
      assert (s + t)[1..] == s[1..] + t;
      MatchesPrefixExtends(p[1..], s[1..], t);
    }
  }

  /** Only the first five characters of a reply are constrained. */
  lemma ValidReplyIgnoresTail(s: string, t: string)
    ensures ValidReply(s) ==> ValidReply(s + t)
    ensures |s| >= 5 ==> (ValidReply(s + t) <==> ValidReply(s))
  {
    ValidReplyIsPatternMatch(s);
    ValidReplyIsPatternMatch(s + t);
    if ValidReply(s) {
      MatchesPrefixExtends(ReplyPattern, s, t);
    }
  }

  /** Outcome of the start-up check: accepted, or which value is fatal. */
  datatype ConfCheck = ConfOk | BadAddrGood(good: string) | BadAddrBad(bad: string)

  /**
   * The template check of `read_conf`: `AddrGood` is tested first, then
   * `AddrBad`; the first one that fails stops the process.
   */
  function CheckReplies(cfg: Settings): (r: ConfCheck)
    ensures r == ConfOk <==>
      MatchesPrefix(ReplyPattern, cfg.addrGood) && MatchesPrefix(ReplyPattern, cfg.addrBad)
    ensures r.BadAddrGood? <==> !MatchesPrefix(ReplyPattern, cfg.addrGood)
    ensures r.BadAddrGood? ==> r.good == cfg.addrGood
    ensures r.BadAddrBad? ==> MatchesPrefix(ReplyPattern, cfg.addrGood) && r.bad == cfg.addrBad
  {
    ValidReplyIsPatternMatch(cfg.addrGood);
    ValidReplyIsPatternMatch(cfg.addrBad);
    if !ValidReply(cfg.addrGood) then BadAddrGood(cfg.addrGood)
    else if !ValidReply(cfg.addrBad) then BadAddrBad(cfg.addrBad)
    else ConfOk
  }

  /** The built-in defaults pass the check. */
  lemma DefaultsAreValid()
    ensures CheckReplies(Defaults) == ConfOk
    ensures Defaults.validTime >= 0
  {
    assert ValidReply(Defaults.addrGood);
    assert ValidReply(Defaults.addrBad);
  }
}
