/** The filtering core of Wireshark's logging library: level names, the
    level and domain tests that decide whether a message is dropped, the
    setters for the current level and the domain filter, the removal of
    the logging options from the command line, and the level that
    initialisation picks.

    The library keeps its settings in static variables; here they are one
    `LogState` value that every setter takes and returns. */
module WsLog {
  import opened Optional
  import opened Ascii

  // ---------------------------------------------------------------------
  // Levels

  /** The levels, least verbose first. Their numeric order is what the
      level test compares. */
  const LEVEL_NONE := 0
  const LEVEL_ERROR := 1
  const LEVEL_CRITICAL := 2
  const LEVEL_WARNING := 3
  const LEVEL_MESSAGE := 4
  const LEVEL_INFO := 5
  const LEVEL_DEBUG := 6
  /** One past the last level. */
  const LEVEL_LAST := 7

  /** The level initialisation starts from. */
  const DEFAULT_LEVEL := LEVEL_MESSAGE

  const BOGUS_LEVEL_NAME := "(BOGUS LOG LEVEL)"

  /** `ws_log_level_to_string`. */
  function LevelToString(level: int): (s: string)
    ensures s == BOGUS_LEVEL_NAME <==> !(LEVEL_NONE <= level < LEVEL_LAST)
    ensures LEVEL_ERROR <= level < LEVEL_LAST ==> forall i :: 0 <= i < |s| ==> 'A' <= s[i] <= 'Z'
  {
    if level == LEVEL_NONE then "(none)"
    else if level == LEVEL_ERROR then "ERROR"
    else if level == LEVEL_CRITICAL then "CRITICAL"
    else if level == LEVEL_WARNING then "WARNING"
    else if level == LEVEL_MESSAGE then "MESSAGE"
    else if level == LEVEL_INFO then "INFO"
    else if level == LEVEL_DEBUG then "DEBUG"
    else BOGUS_LEVEL_NAME
  }

  /** Different levels have different names. */
  lemma LevelNamesDistinct(a: int, b: int)
    requires LEVEL_NONE <= a < LEVEL_LAST && LEVEL_NONE <= b < LEVEL_LAST && a != b
    ensures LevelToString(a) != LevelToString(b)
  {
  }

  /** The settings the library keeps: the current level, the domain
      filter (absent until one is set) and the custom log file, named by
      the path it was opened from (absent until one is added). */
  datatype LogState = LogState(level: int, filter: Option<seq<string>>, file: Option<string>)

  /** The state before initialisation. */
  const INITIAL := LogState(LEVEL_NONE, None, None)

  /** `ws_log_level_is_active`. */
  predicate LevelIsActive(st: LogState, level: int) {
    level <= st.level
  }

  /** `ws_log_domain_is_active` as a definition: every domain passes when
      no filter is set, and otherwise a domain passes when some entry of
      the filter is equal to it ignoring ASCII case. */
  predicate DomainActive(filter: Option<seq<string>>, domain: string) {
    filter.None? || exists i :: 0 <= i < |filter.value| && EqualsIgnoreCase(filter.value[i], domain)
  }

  /** `ws_log_domain_is_active` as written: a scan of the filter that stops
      at the first entry equal to the domain. */
  method DomainIsActive(st: LogState, domain: string) returns (active: bool)
    ensures active == DomainActive(st.filter, domain)
  {
    if st.filter.None? {
      return true;
    }
    var f := st.filter.value;
    var i := 0;
    while i < |f|
      invariant 0 <= i <= |f|
      invariant forall j :: 0 <= j < i ==> !EqualsIgnoreCase(f[j], domain)
    {
      if |f[i]| == |domain| && forall k :: 0 <= k < |domain| ==> ToLower(f[i][k]) == ToLower(domain[k]) {
        return true;
      }
      i := i + 1;
    }
    return false;
  }

  /** A filter that is set but empty lets no domain through. */
  lemma EmptyFilterBlocksAll(domain: string)
    ensures !DomainActive(Some([]), domain)
  {
  }

  /** The domain test ignores the case of the domain. */
  lemma DomainActiveIgnoresCase(filter: Option<seq<string>>, d: string, e: string)
    requires EqualsIgnoreCase(d, e)
    ensures DomainActive(filter, d) <==> DomainActive(filter, e)
  {
    if filter.Some? {
      var f := filter.value;
      if DomainActive(filter, d) {
        var i :| 0 <= i < |f| && EqualsIgnoreCase(f[i], d);
        assert EqualsIgnoreCase(f[i], e);
      }
      if DomainActive(filter, e) {
        var i :| 0 <= i < |f| && EqualsIgnoreCase(f[i], e);
        assert EqualsIgnoreCase(f[i], d);
      }
    }
  }

  /** `log_drop_message`: errors and critical messages always go out;
      any other message is dropped when its level or its domain is not
      active. */
  function DropMessage(st: LogState, domain: string, level: int): (drop: bool)
    ensures level <= LEVEL_CRITICAL ==> !drop
    ensures level > LEVEL_CRITICAL ==> (drop <==> !LevelIsActive(st, level) || !DomainActive(st.filter, domain))
  {
    if level <= LEVEL_CRITICAL then false
    else !LevelIsActive(st, level) || !DomainActive(st.filter, domain)
  }

  /** Without a filter a message is dropped exactly when it is above both
      the critical level and the current level. */
  lemma DropWithoutFilter(st: LogState, domain: string, level: int)
    requires st.filter.None?
    ensures DropMessage(st, domain, level) <==> LEVEL_CRITICAL < level && st.level < level
  {
  }

  /** Raising the current level never drops a message that was kept. */
  lemma DropMonotoneInLevel(st: LogState, level': int, domain: string, level: int)
    requires st.level <= level'
    ensures DropMessage(st.(level := level'), domain, level) ==> DropMessage(st, domain, level)
  {
  }

  /** Adding entries to the filter never drops a message that was kept. */
  lemma DropMonotoneInFilter(st: LogState, more: seq<string>, domain: string, level: int)
    requires st.filter.Some?
    ensures DropMessage(st.(filter := Some(st.filter.value + more)), domain, level) ==> DropMessage(st, domain, level)
  {
    var f := st.filter.value;
    if DomainActive(st.filter, domain) {
      var i :| 0 <= i < |f| && EqualsIgnoreCase(f[i], domain);
      assert (f + more)[i] == f[i];
    }
  }

  // ---------------------------------------------------------------------
  // Setting the level

  /** `ws_log_set_level`; the library asserts the level is a real one. */
  function SetLevel(st: LogState, level: int): (r: (LogState, int))
    requires LEVEL_NONE < level < LEVEL_LAST
    ensures r.0 == st.(level := level) && r.1 == level
    ensures LevelIsActive(r.0, level) && !LevelIsActive(r.0, level + 1)
  {
    (st.(level := level), level)
  }

  /** The names `ws_log_set_level_str` knows, in the order it tries them. */
  function NamedLevel(name: string): (l: Option<int>)
    ensures l.Some? ==> LEVEL_ERROR <= l.value <= LEVEL_DEBUG
  {
    if EqualsIgnoreCase(name, "debug") then Some(LEVEL_DEBUG)
    else if EqualsIgnoreCase(name, "info") then Some(LEVEL_INFO)
    else if EqualsIgnoreCase(name, "message") then Some(LEVEL_MESSAGE)
    else if EqualsIgnoreCase(name, "warning") then Some(LEVEL_WARNING)
    else if EqualsIgnoreCase(name, "critical") then Some(LEVEL_CRITICAL)
    else if EqualsIgnoreCase(name, "error") then Some(LEVEL_ERROR)
    else None
  }

  /** `ws_log_set_level_str`: a known name, in any case, becomes the
      current level and is returned; a null or unknown name returns the
      none level and changes nothing. */
  function SetLevelStr(st: LogState, name: Option<string>): (r: (LogState, int))
    ensures r.1 == LEVEL_NONE <==> name.None? || NamedLevel(name.value).None?
    ensures r.1 == LEVEL_NONE ==> r.0 == st
    ensures r.1 != LEVEL_NONE ==> LEVEL_ERROR <= r.1 <= LEVEL_DEBUG && r.0 == st.(level := r.1)
  {
    match name
    case None => (st, LEVEL_NONE)
    case Some(s) =>
      match NamedLevel(s)
      case None => (st, LEVEL_NONE)
      case Some(l) => (st.(level := l), l)
  }

  /** The name of every real level sets that level back: the names are
      upper case and the parser ignores case. */
  lemma SetLevelStrOfName(st: LogState, level: int)
    requires LEVEL_ERROR <= level < LEVEL_LAST
    ensures SetLevelStr(st, Some(LevelToString(level))) == (st.(level := level), level)
  {
    if level == LEVEL_ERROR { ErrorName(); }
    else if level == LEVEL_CRITICAL { CriticalName(); }
    else if level == LEVEL_WARNING { WarningName(); }
    else if level == LEVEL_MESSAGE { MessageName(); }
    else if level == LEVEL_INFO { InfoName(); }
    else { DebugName(); }
  }

  // The upper-case name of each real level is a name the parser knows.

  lemma ErrorName()
    ensures NamedLevel("ERROR") == Some(LEVEL_ERROR)
  {
    assert ToLower("ERROR"[0]) != ToLower("debug"[0]);
    assert EqualsIgnoreCase("ERROR", "error");
  }

  lemma CriticalName()
    ensures NamedLevel("CRITICAL") == Some(LEVEL_CRITICAL)
  {
    assert EqualsIgnoreCase("CRITICAL", "critical");
  }

  lemma WarningName()
    ensures NamedLevel("WARNING") == Some(LEVEL_WARNING)
  {
    assert ToLower("WARNING"[0]) != ToLower("message"[0]);
    assert EqualsIgnoreCase("WARNING", "warning");
  }

  lemma MessageName()
    ensures NamedLevel("MESSAGE") == Some(LEVEL_MESSAGE)
  {
    assert EqualsIgnoreCase("MESSAGE", "message");
  }

  lemma InfoName()
    ensures NamedLevel("INFO") == Some(LEVEL_INFO)
  {
    assert EqualsIgnoreCase("INFO", "info");
  }

  lemma DebugName()
    ensures NamedLevel("DEBUG") == Some(LEVEL_DEBUG)
  {
    assert EqualsIgnoreCase("DEBUG", "debug");
  }

  /** The none level and the bogus name are not names the parser knows. */
  lemma SetLevelStrRejectsOthers(st: LogState, level: int)
    requires !(LEVEL_ERROR <= level < LEVEL_LAST)
    ensures SetLevelStr(st, Some(LevelToString(level))) == (st, LEVEL_NONE)
  {
  }

  /** Names that differ only in ASCII case set the same level. */
  lemma SetLevelStrIgnoresCase(st: LogState, a: string, b: string)
    requires EqualsIgnoreCase(a, b)
    ensures SetLevelStr(st, Some(a)) == SetLevelStr(st, Some(b))
  {
    SameCaseFold(a, b, "debug");
    SameCaseFold(a, b, "info");
    SameCaseFold(a, b, "message");
    SameCaseFold(a, b, "warning");
    SameCaseFold(a, b, "critical");
    SameCaseFold(a, b, "error");
  }

  /** Strings equal ignoring case compare alike with any third string. */
  lemma SameCaseFold(a: string, b: string, n: string)
    requires EqualsIgnoreCase(a, b)
    ensures EqualsIgnoreCase(a, n) <==> EqualsIgnoreCase(b, n)
  {
    if EqualsIgnoreCase(a, n) {
      forall i | 0 <= i < |b| ensures ToLower(b[i]) == ToLower(n[i]) {
        assert ToLower(a[i]) == ToLower(b[i]);
      }
    }
    if EqualsIgnoreCase(b, n) {
      forall i | 0 <= i < |a| ensures ToLower(a[i]) == ToLower(n[i]) {
        assert ToLower(a[i]) == ToLower(b[i]);
      }
    }
  }

  // ---------------------------------------------------------------------
  // The domain filter

  /** The separators of a domain filter string. */
  predicate IsSep(c: char) {
    c == ',' || c == ';'
  }

  predicate NoSep(w: string) {
    forall k :: 0 <= k < |w| ==> !IsSep(w[k])
  }

  /** What `strtok` can return: non-empty tokens without separators. */
  predicate WellFormedTokens(ts: seq<string>) {
    forall i :: 0 <= i < |ts| ==> ts[i] != [] && NoSep(ts[i])
  }

  /** The `strtok` loop with `cur` the token read so far. */
  function Split(s: string, cur: string): (ts: seq<string>)
    decreases |s|
  {
    if s == [] then (if cur == [] then [] else [cur])
    else if IsSep(s[0]) then (if cur == [] then [] else [cur]) + Split(s[1..], [])
    else Split(s[1..], cur + [s[0]])
  }

  /** The tokens of a domain filter string, in order. */
  function Tokens(s: string): (ts: seq<string>)
    ensures WellFormedTokens(ts)
  {
    SplitWellFormed(s, []);
    Split(s, [])
  }

  lemma {:induction false} SplitWellFormed(s: string, cur: string)
    requires NoSep(cur)
    ensures WellFormedTokens(Split(s, cur))
    decreases |s|
  {
    if s != [] {
      if IsSep(s[0]) {
        SplitWellFormed(s[1..], []);
      } else {
        SplitWellFormed(s[1..], cur + [s[0]]);
      }
    }
  }

  /** A separator splits the string: the tokens of the two sides, one
      after the other. */
  lemma {:induction false} SplitAtSep(a: string, c: char, b: string, cur: string)
    requires IsSep(c)
    ensures Split(a + [c] + b, cur) == Split(a, cur) + Split(b, [])
    decreases |a|
  {
    var s := a + [c] + b;
    if a == [] {
      assert s == [c] + b && s[1..] == b;
    } else {
      assert s[0] == a[0] && s[1..] == a[1..] + [c] + b;
      if IsSep(a[0]) {
        SplitAtSep(a[1..], c, b, []);
      } else {
        SplitAtSep(a[1..], c, b, cur + [a[0]]);
      }
    }
  }

  /** A word without separators is one token, or none when empty. */
  lemma {:induction false} SplitWord(w: string, cur: string)
    requires NoSep(w)
    ensures Split(w, cur) == if cur + w == [] then [] else [cur + w]
    decreases |w|
  {
    if w == [] {
      assert cur + w == cur;
    } else {
      assert !IsSep(w[0]);
      assert cur + w == (cur + [w[0]]) + w[1..];
      SplitWord(w[1..], cur + [w[0]]);
    }
  }

  /** The tokens joined with a separator. */
  function Join(ts: seq<string>, c: char): string {
    if ts == [] then [] else if |ts| == 1 then ts[0] else ts[0] + [c] + Join(ts[1..], c)
  }

  /** Tokenising undoes joining: a list of non-empty words without
      separators, joined with `,` or `;`, reads back as the same list. */
  lemma {:induction false} TokensOfJoin(ts: seq<string>, c: char)
    requires IsSep(c) && WellFormedTokens(ts)
    ensures Tokens(Join(ts, c)) == ts
    decreases |ts|
  {
    if |ts| == 1 {
      SplitWord(ts[0], []);
      assert [] + ts[0] == ts[0];
    } else if ts != [] {
      SplitAtSep(ts[0], c, Join(ts[1..], c), []);
      SplitWord(ts[0], []);
      assert [] + ts[0] == ts[0];
      TokensOfJoin(ts[1..], c);
      assert ts == [ts[0]] + ts[1..];
    }
  }

  /** All the tokens, end to end. */
  function Concat(ts: seq<string>): string {
    if ts == [] then [] else ts[0] + Concat(ts[1..])
  }

  /** The string without its separators. */
  function RemoveSeps(s: string): (r: string)
    ensures NoSep(r)
  {
    if s == [] then [] else (if IsSep(s[0]) then [] else [s[0]]) + RemoveSeps(s[1..])
  }

  lemma {:induction false} ConcatAppend(a: seq<string>, b: seq<string>)
    ensures Concat(a + b) == Concat(a) + Concat(b)
    decreases |a|
  {
    if a == [] {
      assert a + b == b;
    } else {
      assert (a + b)[0] == a[0] && (a + b)[1..] == a[1..] + b;
      ConcatAppend(a[1..], b);
    }
  }

  /** Nothing but separators is lost: the tokens, end to end, are the
      string with its separators taken out. */
  lemma {:induction false} SplitKeepsText(s: string, cur: string)
    ensures Concat(Split(s, cur)) == cur + RemoveSeps(s)
    decreases |s|
  {
    if s == [] {
      if cur != [] {
        assert Concat([cur]) == cur + Concat([]);
      }
    } else if IsSep(s[0]) {
      SplitKeepsText(s[1..], []);
      ConcatAppend(if cur == [] then [] else [cur], Split(s[1..], []));
      if cur != [] {
        assert Concat([cur]) == cur + Concat([]);
      }
    } else {
      SplitKeepsText(s[1..], cur + [s[0]]);
    }
  }

  lemma {:induction false} TokensKeepText(s: string)
    ensures Concat(Tokens(s)) == RemoveSeps(s)
  {
    SplitKeepsText(s, []);
  }

  /** `ws_log_set_domain_filter_str`: the filter becomes the tokens of the
      string, whatever filter was set before. */
  function SetDomainFilterStr(st: LogState, s: string): (r: LogState)
    ensures r.filter.Some? && WellFormedTokens(r.filter.value)
    ensures r.level == st.level && r.file == st.file
  {
    st.(filter := Some(Tokens(s)))
  }

  /** A domain passes the filter set from a string exactly when it equals
      one of the string's tokens, ignoring case. */
  lemma FilterFromString(st: LogState, s: string, domain: string)
    ensures DomainActive(SetDomainFilterStr(st, s).filter, domain)
        <==> exists i :: 0 <= i < |Tokens(s)| && EqualsIgnoreCase(Tokens(s)[i], domain)
  {
  }

  // ---------------------------------------------------------------------
  // Command-line options

  const OPT_LEVEL := "--log-level"
  const OPT_DOMAINS := "--log-domains"
  const OPT_FILE := "--log-file"

  /** The option an argument starts with, tried in the library's order. */
  function OptionPrefix(arg: string): (o: Option<string>)
    ensures o.Some? ==> HasPrefix(arg, o.value) && (o.value == OPT_LEVEL || o.value == OPT_DOMAINS || o.value == OPT_FILE)
  {
    if HasPrefix(arg, OPT_LEVEL) then Some(OPT_LEVEL)
    else if HasPrefix(arg, OPT_DOMAINS) then Some(OPT_DOMAINS)
    else if HasPrefix(arg, OPT_FILE) then Some(OPT_FILE)
    else None
  }

  /** Each option name alone is recognised as itself: none of the three
      names starts with another. */
  lemma OptionNames()
    ensures OptionPrefix(OPT_LEVEL) == Some(OPT_LEVEL)
    ensures OptionPrefix(OPT_DOMAINS) == Some(OPT_DOMAINS)
    ensures OptionPrefix(OPT_FILE) == Some(OPT_FILE)
  {
    assert OPT_LEVEL[..|OPT_LEVEL|] == OPT_LEVEL;
    assert OPT_DOMAINS[..|OPT_DOMAINS|] == OPT_DOMAINS;
    assert OPT_FILE[..|OPT_FILE|] == OPT_FILE;
    assert OPT_DOMAINS[..|OPT_LEVEL|][6] != OPT_LEVEL[6];
  }

  /** An argument the parser takes out: an option name alone, or followed
      by `=` and a value. */
  predicate IsLogOption(arg: string) {
    OptionPrefix(arg).Some? &&
    var tail := arg[|OptionPrefix(arg).value|..];
    tail == [] || tail[0] == '='
  }

  /** A separate value the parser will not take: missing, empty, or
      looking like another option. */
  predicate BadSeparateValue(next: seq<string>) {
    next == [] || next[0] == [] || next[0][0] == '-'
  }

  /** What the parser reports through its error callback; each report adds
      one to the count it returns. */
  datatype ParseError = MissingValue(arg: string) | InvalidLevel(value: string) | OpenFailed(path: string)

  /** The argument vector left, the settings, and the reports in order. */
  datatype Parsed = Parsed(args: seq<string>, state: LogState, errors: seq<ParseError>)

  /** `ws_log_add_custom_file`: the new file becomes the custom log file,
      and the one added before, if any, is closed and forgotten. */
  function AddCustomFile(st: LogState, path: string): (r: LogState)
    ensures r.file == Some(path)
    ensures r.level == st.level && r.filter == st.filter
  {
    st.(file := Some(path))
  }

  /** Only the last file added stays: adding two in a row is adding the
      second alone, and adding one changes no drop decision. */
  lemma {:induction false} LastFileWins(st: LogState, a: string, b: string, domain: string, level: int)
    ensures AddCustomFile(AddCustomFile(st, a), b) == AddCustomFile(st, b)
    ensures DropMessage(AddCustomFile(st, a), domain, level) == DropMessage(st, domain, level)
  {
  }

  /** Acting on one option and its value. `opens` stands for the attempt
      to open a file for writing. */
  function ApplyOption(opt: string, value: string, st: LogState, opens: string -> bool): (r: (LogState, seq<ParseError>))
    ensures |r.1| <= 1
    ensures opt == OPT_LEVEL ==>
      && (r.1 == [] <==> NamedLevel(value).Some?)
      && (r.1 != [] ==> r.1 == [InvalidLevel(value)] && r.0 == st)
      && (r.1 == [] ==> r.0 == st.(level := NamedLevel(value).value))
    ensures opt == OPT_DOMAINS ==> r.1 == [] && r.0 == st.(filter := Some(Tokens(value)))
    ensures opt != OPT_LEVEL && opt != OPT_DOMAINS ==>
      && (r.1 == [] <==> opens(value))
      && (r.1 != [] ==> r.1 == [OpenFailed(value)] && r.0 == st)
      && (r.1 == [] ==> r.0 == AddCustomFile(st, value))
  {
    if opt == OPT_LEVEL then
      var (st', l) := SetLevelStr(st, Some(value));
      (st', if l == LEVEL_NONE then [InvalidLevel(value)] else [])
    else if opt == OPT_DOMAINS then (SetDomainFilterStr(st, value), [])
    else if opens(value) then (AddCustomFile(st, value), [])
    else (st, [OpenFailed(value)])
  }

  /** A level option naming a real level by its printed name sets that
      level without a report, and from then on a message is dropped
      exactly when it is above the critical level and either above the
      new level or outside the filter. */
  lemma {:induction false} ApplyLevelByName(st: LogState, l: int, opens: string -> bool, domain: string, level: int)
    requires LEVEL_ERROR <= l < LEVEL_LAST
    ensures ApplyOption(OPT_LEVEL, LevelToString(l), st, opens) == (st.(level := l), [])
    ensures DropMessage(ApplyOption(OPT_LEVEL, LevelToString(l), st, opens).0, domain, level)
        <==> LEVEL_CRITICAL < level && (l < level || !DomainActive(st.filter, domain))
  {
    SetLevelStrOfName(st, l);
  }

  /** A domains option keeps the level and lets through exactly the
      domains among its tokens, ignoring case; a file option, opened or
      not, changes no drop decision. */
  lemma {:induction false} ApplyDomainsOrFileDrops(value: string, st: LogState, opens: string -> bool, domain: string, level: int)
    ensures DropMessage(ApplyOption(OPT_DOMAINS, value, st, opens).0, domain, level)
        <==> LEVEL_CRITICAL < level
             && (st.level < level || !exists i :: 0 <= i < |Tokens(value)| && EqualsIgnoreCase(Tokens(value)[i], domain))
    ensures DropMessage(ApplyOption(OPT_FILE, value, st, opens).0, domain, level) == DropMessage(st, domain, level)
  {
    FilterFromString(st, value, domain);
    assert OPT_FILE[6] != OPT_LEVEL[6] && OPT_FILE[6] != OPT_DOMAINS[6];
  }

  /** `b` with some of its elements taken out, the rest in order. */
  predicate IsSubseq<T(==)>(a: seq<T>, b: seq<T>)
    decreases |b|
  {
    if a == [] then true
    else if b == [] then false
    else (a[0] == b[0] && IsSubseq(a[1..], b[1..])) || IsSubseq(a, b[1..])
  }

  /** `ws_log_parse_args`: walks the argument vector, acting on and taking
      out every logging option, with its separate value when it has one,
      and keeping every other argument where it was. The vector's new
      length is the length of `args` in the result; the count it returns
      is the number of errors. */
  function ParseArgs(args: seq<string>, st: LogState, opens: string -> bool): (r: Parsed)
    ensures IsSubseq(r.args, args)
    ensures forall i :: 0 <= i < |r.args| ==> !IsLogOption(r.args[i])
    ensures |r.errors| <= |args| - |r.args|
    decreases |args|
  {
    if args == [] then Parsed([], st, [])
    else if !IsLogOption(args[0]) then
      var r := ParseArgs(args[1..], st, opens);
      Parsed([args[0]] + r.args, r.state, r.errors)
    else
      var opt := OptionPrefix(args[0]).value;
      var tail := args[0][|opt|..];
      if tail == [] then
        if BadSeparateValue(args[1..]) then
          var r := ParseArgs(args[1..], st, opens);
          SubseqSkip(r.args, args);
          Parsed(r.args, r.state, [MissingValue(args[0])] + r.errors)
        else
          var (st', errs) := ApplyOption(opt, args[1], st, opens);
          var r := ParseArgs(args[2..], st', opens);
          SubseqSkip(r.args, args[1..]);
          SubseqSkip(r.args, args);
          Parsed(r.args, r.state, errs + r.errors)
      else
        var (st', errs) := ApplyOption(opt, tail[1..], st, opens);
        var r := ParseArgs(args[1..], st', opens);
        SubseqSkip(r.args, args);
        Parsed(r.args, r.state, errs + r.errors)
  }

  /** Dropping the first element of the longer sequence keeps a
      subsequence a subsequence. */
  lemma {:induction false} SubseqSkip<T>(a: seq<T>, b: seq<T>)
    requires b != [] && IsSubseq(a, b[1..])
    ensures IsSubseq(a, b)
  {
  }

  /** Arguments that are not logging options pass through untouched, and
      nothing is set or reported. */
  lemma {:induction false} ParseArgsKeepsOthers(args: seq<string>, st: LogState, opens: string -> bool)
    requires forall i :: 0 <= i < |args| ==> !IsLogOption(args[i])
    ensures ParseArgs(args, st, opens) == Parsed(args, st, [])
    decreases |args|
  {
    if args != [] {
      ParseArgsKeepsOthers(args[1..], st, opens);
      assert args == [args[0]] + args[1..];
    }
  }

  /** Parsing is idempotent: the vector it leaves has nothing more for a
      second pass to take, set or report. */
  lemma {:induction false} ParseArgsIdempotent(args: seq<string>, st: LogState, st2: LogState, opens: string -> bool)
    ensures
      var r := ParseArgs(args, st, opens);
      ParseArgs(r.args, st2, opens) == Parsed(r.args, st2, [])
  {
    ParseArgsKeepsOthers(ParseArgs(args, st, opens).args, st2, opens);
  }

  /** An option name followed by a separate value: both slots go, and the
      value is acted on. */
  lemma {:induction false} ParseSeparateValue(opt: string, value: string, rest: seq<string>, st: LogState, opens: string -> bool)
    requires opt == OPT_LEVEL || opt == OPT_DOMAINS || opt == OPT_FILE
    requires value != [] && value[0] != '-'
    ensures
      var r := ParseArgs([opt, value] + rest, st, opens);
      var (st', errs) := ApplyOption(opt, value, st, opens);
      var r' := ParseArgs(rest, st', opens);
      r == Parsed(r'.args, r'.state, errs + r'.errors)
  {
    var args := [opt, value] + rest;
    OptionNames();
    assert args[0] == opt && args[1..] == [value] + rest && args[2..] == rest;
    assert args[1..][0] == value;
    assert opt[|opt|..] == [];
  }

  /** An option name whose separate value is missing, empty or looks like
      another option: only the option's slot goes, one error is reported,
      and the next argument is looked at as it is. */
  lemma {:induction false} ParseMissingValue(opt: string, rest: seq<string>, st: LogState, opens: string -> bool)
    requires opt == OPT_LEVEL || opt == OPT_DOMAINS || opt == OPT_FILE
    requires BadSeparateValue(rest)
    ensures
      var r := ParseArgs([opt] + rest, st, opens);
      var r' := ParseArgs(rest, st, opens);
      r == Parsed(r'.args, r'.state, [MissingValue(opt)] + r'.errors)
  {
    var args := [opt] + rest;
    OptionNames();
    assert args[0] == opt && args[1..] == rest;
    assert opt[|opt|..] == [];
  }

  /** `--log-level=<value>` with a value that is not a level name: one
      error, the current level stays, the slot goes. */
  lemma {:induction false} ParseInvalidLevel(value: string, rest: seq<string>, st: LogState, opens: string -> bool)
    requires NamedLevel(value).None?
    ensures
      var r := ParseArgs([OPT_LEVEL + "=" + value] + rest, st, opens);
      var r' := ParseArgs(rest, st, opens);
      r == Parsed(r'.args, r'.state, [InvalidLevel(value)] + r'.errors)
  {
    var a := OPT_LEVEL + "=" + value;
    var args := [a] + rest;
    assert args[0] == a && args[1..] == rest;
    assert HasPrefix(a, OPT_LEVEL) by { assert a[..|OPT_LEVEL|] == OPT_LEVEL; }
    assert a[|OPT_LEVEL|..] == "=" + value;
    assert ("=" + value)[1..] == value;
  }

  /** `--<option>=<value>`: the slot goes and the value is acted on. */
  lemma {:induction false} ParseAttachedValue(opt: string, value: string, rest: seq<string>, st: LogState, opens: string -> bool)
    requires opt == OPT_LEVEL || opt == OPT_DOMAINS || opt == OPT_FILE
    ensures
      var r := ParseArgs([opt + "=" + value] + rest, st, opens);
      var (st', errs) := ApplyOption(opt, value, st, opens);
      var r' := ParseArgs(rest, st', opens);
      r == Parsed(r'.args, r'.state, errs + r'.errors)
  {
    var a := opt + "=" + value;
    var args := [a] + rest;
    assert args[0] == a && args[1..] == rest;
    AttachedOption(opt, value);
    assert ("=" + value)[1..] == value;
  }

  /** An option name followed by `=` is recognised as that option, with
      the `=` and the value as its tail. */
  lemma {:induction false} AttachedOption(opt: string, value: string)
    requires opt == OPT_LEVEL || opt == OPT_DOMAINS || opt == OPT_FILE
    ensures OptionPrefix(opt + "=" + value) == Some(opt)
    ensures (opt + "=" + value)[|opt|..] == "=" + value
  {
    var a := opt + "=" + value;
    assert HasPrefix(a, opt) by { assert a[..|opt|] == opt; }
    OptionNames();
    assert a[6] == opt[6];
    assert a[|opt|..] == "=" + value;
  }

  /** An argument that is not a logging option (it names no option, or
      it starts with an option name and goes on with something other than
      `=`) stays in place, and nothing is set or reported for it. */
  lemma {:induction false} ParseKeepsLongerNames(arg: string, rest: seq<string>, st: LogState, opens: string -> bool)
    requires !IsLogOption(arg)
    ensures
      var r := ParseArgs([arg] + rest, st, opens);
      var r' := ParseArgs(rest, st, opens);
      r == Parsed([arg] + r'.args, r'.state, r'.errors)
  {
    var args := [arg] + rest;
    assert args[0] == arg && args[1..] == rest;
  }

  /** An option name with nothing after it. */
  predicate IsBareOption(arg: string) {
    OptionPrefix(arg).Some? && |arg| == |OptionPrefix(arg).value|
  }

  /** Whether the parser takes out the argument at `i`, decided from that
      argument and the one before it alone: a logging option, or the
      separate value of a bare option name before it, which is neither
      empty nor dash-led. */
  predicate TakenAt(args: seq<string>, i: int)
    requires 0 <= i < |args|
  {
    IsLogOption(args[i]) || (i > 0 && IsBareOption(args[i - 1]) && args[i] != [] && args[i][0] != '-')
  }

  /** The arguments from `i` on that are not taken, in order. */
  function KeptFrom(args: seq<string>, i: nat): seq<string>
    requires i <= |args|
    decreases |args| - i
  {
    if i == |args| then [] else (if TakenAt(args, i) then [] else [args[i]]) + KeptFrom(args, i + 1)
  }

  /** The parser leaves exactly the arguments that are not taken, in
      their order. */
  lemma {:induction false} ParseArgsKept(args: seq<string>, st: LogState, opens: string -> bool)
    ensures ParseArgs(args, st, opens).args == KeptFrom(args, 0)
  {
    assert args[0..] == args;
    ParseArgsKeptFrom(args, 0, st, opens);
  }

  /** Every place the parser looks at is one where the argument before,
      if any, is not a bare option name, or the argument itself could not
      be its value. */
  lemma {:induction false} ParseArgsKeptFrom(args: seq<string>, i: nat, st: LogState, opens: string -> bool)
    requires i <= |args|
    requires i == 0 || !IsBareOption(args[i - 1]) || BadSeparateValue(args[i..])
    ensures ParseArgs(args[i..], st, opens).args == KeptFrom(args, i)
    decreases |args| - i, 1
  {
    if i < |args| {
      if !IsLogOption(args[i]) {
        ParseArgsKeptOther(args, i, st, opens);
      } else {
        ParseArgsKeptOption(args, i, st, opens);
      }
    }
  }

  /** The step of `ParseArgsKeptFrom` at an argument that stays. */
  lemma {:induction false} ParseArgsKeptOther(args: seq<string>, i: nat, st: LogState, opens: string -> bool)
    requires i < |args| && !IsLogOption(args[i])
    requires i == 0 || !IsBareOption(args[i - 1]) || BadSeparateValue(args[i..])
    ensures ParseArgs(args[i..], st, opens).args == KeptFrom(args, i)
    decreases |args| - i, 0
  {
    ParseArgsKeptFrom(args, i + 1, st, opens);
    assert ParseArgs(args[i..], st, opens).args == [args[i]] + ParseArgs(args[i + 1..], st, opens).args by {
      assert args[i..] == [args[i]] + args[i + 1..];
      ParseKeepsLongerNames(args[i], args[i + 1..], st, opens);
    }
    assert KeptFrom(args, i) == [args[i]] + KeptFrom(args, i + 1) by {
      assert !TakenAt(args, i) by {
        assert i > 0 && IsBareOption(args[i - 1]) ==> BadSeparateValue(args[i..]);
      }
    }
  }

  /** The step of `ParseArgsKeptFrom` at a logging option. */
  lemma {:induction false} ParseArgsKeptOption(args: seq<string>, i: nat, st: LogState, opens: string -> bool)
    requires i < |args| && IsLogOption(args[i])
    ensures ParseArgs(args[i..], st, opens).args == KeptFrom(args, i)
    decreases |args| - i, 0
  {
    var a := args[i..];
    assert a[0] == args[i] && a[1..] == args[i + 1..];
    var opt := OptionPrefix(args[i]).value;
    var tail := args[i][|opt|..];
    if tail == [] {
      assert IsBareOption(args[i]);
      if BadSeparateValue(a[1..]) {
        ParseArgsKeptFrom(args, i + 1, st, opens);
        assert ParseArgs(a, st, opens).args == ParseArgs(a[1..], st, opens).args;
      } else {
        var st' := ApplyOption(opt, a[1], st, opens).0;
        assert a[2..] == args[i + 2..];
        assert TakenAt(args, i + 1);
        assert args[i + 1][0] != '-';
        ParseArgsKeptFrom(args, i + 2, st', opens);
        assert ParseArgs(a, st, opens).args == ParseArgs(a[2..], st', opens).args;
      }
    } else {
      var st' := ApplyOption(opt, tail[1..], st, opens).0;
      ParseArgsKeptFrom(args, i + 1, st', opens);
      assert ParseArgs(a, st, opens).args == ParseArgs(a[1..], st', opens).args;
    }
  }

  // ---------------------------------------------------------------------
  // Initialisation

  /** The settings part of `ws_log_init`: the level starts at the default
      and an environment value that names a level replaces it, the
      domain filter is set from its environment value when there is one.
      The flag says the level value was ignored with a warning. */
  function Init(st: LogState, envLevel: Option<string>, envDomains: Option<string>): (r: (LogState, bool))
    ensures r.1 <==> envLevel.Some? && NamedLevel(envLevel.value).None?
    ensures envLevel.Some? && NamedLevel(envLevel.value).Some? ==> r.0.level == NamedLevel(envLevel.value).value
    ensures !(envLevel.Some? && NamedLevel(envLevel.value).Some?) ==> r.0.level == DEFAULT_LEVEL
    ensures envDomains.None? ==> r.0.filter == st.filter
    ensures envDomains.Some? ==> r.0.filter == Some(Tokens(envDomains.value))
    ensures r.0.file == st.file
  {
    var st1 := st.(level := DEFAULT_LEVEL);
    var (st2, l) := if envLevel.Some? then SetLevelStr(st1, envLevel) else (st1, LEVEL_NONE);
    var warned := envLevel.Some? && l == LEVEL_NONE;
    var st3 := if envDomains.Some? then SetDomainFilterStr(st2, envDomains.value) else st2;
    (st3, warned)
  }

  /** After initialisation with no environment, errors, critical messages,
      warnings and plain messages go out and info and debug messages are
      dropped. */
  lemma InitDefaultVerbosity(domain: string, level: int)
    ensures
      var st := Init(INITIAL, None, None).0;
      DropMessage(st, domain, level) <==> level > LEVEL_MESSAGE
  {
  }
}
