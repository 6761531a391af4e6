/** The decision logic of the logger: the table of debug tokens that `log_debug`
    accepts at level 2, the gates of `log_info` and `log_debug`, the severity
    labels of `translate`, and the message that `fatal` and `fatalx` log. */
module Log {
  import opened Wrappers

  /** `MAX_DBG_TOKENS`: how many tokens the table can list; it has one more entry,
      which is never anything but empty. */
  const MAX_DBG_TOKENS: nat := 40

  /** The syslog priorities, as `<syslog.h>` numbers them. */
  const LOG_EMERG: int := 0
  const LOG_ALERT: int := 1
  const LOG_CRIT: int := 2
  const LOG_ERR: int := 3
  const LOG_WARNING: int := 4
  const LOG_NOTICE: int := 5
  const LOG_INFO: int := 6
  const LOG_DEBUG: int := 7

  /** The table of pointers to tokens; `None` is a NULL entry. */
  type Table = s: seq<Option<string>> | |s| == MAX_DBG_TOKENS + 1 witness seq(MAX_DBG_TOKENS + 1, _ => None)

  /** The index at which a search over the first `MAX_DBG_TOKENS` entries stops:
      the first empty entry, or `MAX_DBG_TOKENS` when all of them are set. */
  function FirstEmpty(s: Table): (r: nat)
    ensures r <= MAX_DBG_TOKENS
    ensures forall k :: 0 <= k < r ==> s[k].Some?
    ensures r < MAX_DBG_TOKENS ==> s[r].None?
  {
    FirstEmptyFrom(s, 0)
  }

  function FirstEmptyFrom(s: Table, i: nat): (r: nat)
    requires i <= MAX_DBG_TOKENS && forall k :: 0 <= k < i ==> s[k].Some?
    ensures i <= r <= MAX_DBG_TOKENS
    ensures forall k :: 0 <= k < r ==> s[k].Some?
    ensures r < MAX_DBG_TOKENS ==> s[r].None?
    decreases MAX_DBG_TOKENS - i
  {
    if i == MAX_DBG_TOKENS || s[i].None? then i else FirstEmptyFrom(s, i + 1)
  }

  /** An index with the properties of `FirstEmpty` is `FirstEmpty`. */
  lemma FirstEmptyIs(s: Table, j: nat)
    requires j <= MAX_DBG_TOKENS
    requires forall k :: 0 <= k < j ==> s[k].Some?
    requires j < MAX_DBG_TOKENS ==> s[j].None?
    ensures FirstEmpty(s) == j
  {
  }

  /** The tokens the table lists: the entries before the first empty one. */
  function Visible(s: Table): (r: seq<string>)
    ensures |r| == FirstEmpty(s)
    ensures forall k :: 0 <= k < |r| ==> s[k] == Some(r[k])
  {
    seq(FirstEmpty(s), k requires 0 <= k < FirstEmpty(s) => s[k].value)
  }

  /** Whether `log_debug_accept_token` accepts `token`: it is not NULL and is, as
      a string, one of the tokens the table lists. */
  predicate Accepted(s: Table, token: Option<string>)
    ensures Accepted(s, token) <==> token.Some? && exists k :: 0 <= k < FirstEmpty(s) && s[k] == token
  {
    token.Some? && token.value in Visible(s)
  }

  /** The table after `log_accept(token)`: the token goes into the first empty entry
      and the entry after it is emptied; with all entries set, nothing changes. */
  function AcceptSpec(s: Table, token: Option<string>): (r: Table)
    ensures forall k :: 0 <= k < FirstEmpty(s) ==> r[k] == s[k]
    ensures FirstEmpty(s) < MAX_DBG_TOKENS ==> r[FirstEmpty(s)] == token && r[FirstEmpty(s) + 1].None?
    ensures FirstEmpty(s) == MAX_DBG_TOKENS ==> r == s
  {
    var i := FirstEmpty(s);
    if i < MAX_DBG_TOKENS then s[i + 1 := None][i := token] else s
  }

  /** The table after `log_clear_accept`: only its first entry is emptied. */
  function ClearSpec(s: Table): (r: Table)
    ensures FirstEmpty(r) == 0
    ensures forall k :: 0 < k < |s| ==> r[k] == s[k]
  {
    s[0 := None]
  }

  /** Accepting a token while there is room lists it after the tokens already listed. */
  lemma AcceptAppends(s: Table, t: string)
    requires |Visible(s)| < MAX_DBG_TOKENS
    ensures Visible(AcceptSpec(s, Some(t))) == Visible(s) + [t]
  {
    var i := FirstEmpty(s);
    var s' := AcceptSpec(s, Some(t));
    assert s' == s[i + 1 := None][i := Some(t)];
    FirstEmptyIs(s', i + 1);
    var v, v' := Visible(s), Visible(s');
    assert |v'| == |v + [t]|;
    forall k | 0 <= k < |v'|
      ensures v'[k] == (v + [t])[k]
    {
      assert s'[k] == Some(v'[k]);
      if k < i {
        assert s[k] == Some(v[k]);
      }
    }
  }

  /** With all entries set, accepting changes nothing. */
  lemma AcceptFullUnchanged(s: Table, token: Option<string>)
    requires |Visible(s)| == MAX_DBG_TOKENS
    ensures AcceptSpec(s, token) == s
  {
  }

  /** Accepting NULL lists nothing new: the listed tokens stay as they were. */
  lemma AcceptNullInvisible(s: Table)
    ensures Visible(AcceptSpec(s, None)) == Visible(s)
  {
    var i := FirstEmpty(s);
    if i < MAX_DBG_TOKENS {
      var s' := AcceptSpec(s, None);
      FirstEmptyIs(s', i);
      var v, v' := Visible(s), Visible(s');
      forall k | 0 <= k < |v'|
        ensures v'[k] == v[k]
      {
        assert s'[k] == Some(v'[k]) && s[k] == Some(v[k]);
      }
    }
  }

  /** Accepting keeps the last entry empty, so the table stays NULL-terminated. */
  lemma AcceptKeepsTerminator(s: Table, token: Option<string>)
    requires s[MAX_DBG_TOKENS].None?
    ensures AcceptSpec(s, token)[MAX_DBG_TOKENS].None?
  {
  }

  /** After `log_clear_accept` the table lists nothing, so no token is accepted. */
  lemma ClearEmpties(s: Table, token: Option<string>)
    ensures Visible(ClearSpec(s)) == [] && !Accepted(ClearSpec(s), token)
  {
    FirstEmptyIs(ClearSpec(s), 0);
  }

  /** Clearing and then accepting `t` lists exactly `t`, whatever was there before. */
  lemma ClearThenAccept(s: Table, t: string)
    ensures Visible(AcceptSpec(ClearSpec(s), Some(t))) == [t]
    ensures forall u :: Accepted(AcceptSpec(ClearSpec(s), Some(t)), Some(u)) <==> u == t
  {
    ClearEmpties(s, None);
    AcceptAppends(ClearSpec(s), t);
    assert [] + [t] == [t];
  }

  /** A token that was accepted stays accepted when another one is accepted. */
  lemma AcceptKeepsAccepted(s: Table, token: Option<string>, u: Option<string>)
    requires Accepted(s, u)
    ensures Accepted(AcceptSpec(s, token), u)
  {
    if |Visible(s)| < MAX_DBG_TOKENS {
      if token.Some? {
        AcceptAppends(s, token.value);
      } else {
        AcceptNullInvisible(s);
      }
    }
  }

  /** The gate of `log_info`: a level above 1, or a registered handler. */
  predicate InfoEmits(level: int, handler: bool)
    ensures handler ==> InfoEmits(level, handler)
  {
    level > 1 || handler
  }

  /** The gate of `log_debug`: level 2 with an accepted token, a registered
      handler, or a level above 2. */
  predicate DebugEmits(level: int, handler: bool, accepted: bool)
    ensures level != 2 ==> (DebugEmits(level, handler, accepted) <==> InfoEmits(level, handler))
  {
    (level == 2 && accepted) || handler || level > 2
  }

  /** Whatever `log_debug` emits, `log_info` would emit as well. */
  lemma DebugImpliesInfo(level: int, handler: bool, accepted: bool)
    ensures DebugEmits(level, handler, accepted) ==> InfoEmits(level, handler)
  {
  }

  /** Without a handler, the gates by level: nothing below 2; at 2 all of `log_info`
      and the accepted tokens of `log_debug`; above 2 everything. */
  lemma GatesByLevel(level: int, accepted: bool)
    ensures level < 2 ==> !InfoEmits(level, false) && !DebugEmits(level, false, accepted)
    ensures level == 2 ==> InfoEmits(level, false) && (DebugEmits(level, false, accepted) <==> accepted)
    ensures level > 2 ==> InfoEmits(level, false) && DebugEmits(level, false, accepted)
  {
  }

  /** Raising the level never silences a message. */
  lemma GatesMonotone(level: int, level': int, handler: bool, accepted: bool)
    requires level <= level'
    ensures InfoEmits(level, handler) ==> InfoEmits(level', handler)
    ensures DebugEmits(level, handler, accepted) ==> DebugEmits(level', handler, accepted)
  {
  }

  /** A registered handler receives every message. */
  lemma HandlerEmitsAll(level: int, accepted: bool)
    ensures InfoEmits(level, true) && DebugEmits(level, true, accepted)
  {
  }

  /** The escape character `\033` that starts an ANSI colour sequence. */
  const ESC: char := '\U{1b}'

  /** `translate(fd, priority)`, with `isatty(fd)` given as `tty`: the severity label
      opening a log line, coloured on a terminal. */
  function Translate(tty: bool, priority: int): (r: string)
    ensures !KnownPriority(priority) ==> r == "[UNKN]"
    ensures KnownPriority(priority) ==> |r| >= 5 && r[|r| - 5] == '[' && (r[0] == ESC <==> tty)
  {
    if tty then
      if priority == LOG_EMERG then [ESC] + "[1;37;41m[EMRG"
      else if priority == LOG_ALERT then [ESC] + "[1;37;41m[ALRT"
      else if priority == LOG_CRIT then [ESC] + "[1;37;41m[CRIT"
      else if priority == LOG_ERR then [ESC] + "[1;31m[ ERR"
      else if priority == LOG_WARNING then [ESC] + "[1;33m[WARN"
      else if priority == LOG_NOTICE then [ESC] + "[1;34m[NOTI"
      else if priority == LOG_INFO then [ESC] + "[1;34m[INFO"
      else if priority == LOG_DEBUG then [ESC] + "[1;30m[ DBG"
      else "[UNKN]"
    else
      if priority == LOG_EMERG then "[EMRG"
      else if priority == LOG_ALERT then "[ALRT"
      else if priority == LOG_CRIT then "[CRIT"
      else if priority == LOG_ERR then "[ ERR"
      else if priority == LOG_WARNING then "[WARN"
      else if priority == LOG_NOTICE then "[NOTI"
      else if priority == LOG_INFO then "[INFO"
      else if priority == LOG_DEBUG then "[ DBG"
      else "[UNKN]"
  }

  predicate KnownPriority(priority: int)
  {
    LOG_EMERG <= priority <= LOG_DEBUG
  }

  /** Off a terminal, every known priority gets a label of the same width, an
      opening bracket and four characters. */
  lemma PlainLabelShape(priority: int)
    requires KnownPriority(priority)
    ensures |Translate(false, priority)| == 5 && Translate(false, priority)[0] == '['
  {
  }

  /** On a terminal, the label of a known priority is an escape sequence ending in
      `m` followed by the plain label. */
  lemma ColouredLabel(priority: int)
    requires KnownPriority(priority)
    ensures var c, p := Translate(true, priority), Translate(false, priority);
      && |p| < |c| && c[0] == ESC && c[1] == '['
      && c[|c| - |p|..] == p && c[|c| - |p| - 1] == 'm'
  {
  }

  /** An unknown priority is labelled `[UNKN]`, terminal or not, and that label is
      not the label of any known priority. */
  lemma UnknownLabel(tty: bool, priority: int, known: int)
    requires !KnownPriority(priority) && KnownPriority(known)
    ensures Translate(tty, priority) == "[UNKN]"
    ensures Translate(tty, known) != "[UNKN]"
  {
  }

  /** Two known priorities never share a label. */
  lemma LabelsDistinct(tty: bool, p: int, q: int)
    requires KnownPriority(p) && KnownPriority(q) && p != q
    ensures Translate(tty, p) != Translate(tty, q)
  {
    var a, b := Translate(tty, p), Translate(tty, q);
    assert a[|a| - 3] != b[|b| - 3] || a[|a| - 1] != b[|b| - 1];
  }

  /** One call of `logit`: priority, token and the formatted message. */
  datatype LogCall = LogCall(priority: int, token: string, message: string)

  /** What `fatal(token, emsg)` logs before exiting, with `errno` and `strerror`
      as inputs: the error text alone without a message, the message and the error
      text when `errno` is set, and the message alone otherwise. */
  function Fatal(token: Option<string>, emsg: Option<string>, errno: int, strerror: int -> string): (r: LogCall)
    ensures r.priority == LOG_CRIT
    ensures emsg.Some? ==> emsg.value <= r.message
  {
    var tok := if token.Some? then token.value else "fatal";
    if emsg.None? then LogCall(LOG_CRIT, tok, strerror(errno))
    else if errno != 0 then LogCall(LOG_CRIT, tok, emsg.value + ": " + strerror(errno))
    else LogCall(LOG_CRIT, tok, emsg.value)
  }

  /** `fatalx(emsg)`: `fatal` without a token after clearing `errno`. */
  function Fatalx(emsg: Option<string>, strerror: int -> string): (r: LogCall)
    ensures r.priority == LOG_CRIT && r.token == "fatal"
  {
    Fatal(None, emsg, 0, strerror)
  }

  /** `fatal` logs at `LOG_CRIT` under its token, or under `fatal` when it has none. */
  lemma FatalCritical(token: Option<string>, emsg: Option<string>, errno: int, strerror: int -> string)
    ensures Fatal(token, emsg, errno, strerror).priority == LOG_CRIT
    ensures Fatal(token, emsg, errno, strerror).token == if token.Some? then token.value else "fatal"
  {
  }

  /** The text `fatal` logs: the error text alone without a message; the message,
      a colon and the error text when `errno` is set; the message alone otherwise.
      A given message always opens the text, and it is the whole text exactly when
      `errno` is 0. */
  lemma FatalMessageParts(token: Option<string>, emsg: Option<string>, errno: int, strerror: int -> string)
    ensures var m := Fatal(token, emsg, errno, strerror).message;
      && (emsg.None? ==> m == strerror(errno))
      && (emsg.Some? && errno != 0 ==> m == emsg.value + ": " + strerror(errno))
      && (emsg.Some? && errno == 0 ==> m == emsg.value)
      && (emsg.Some? ==> emsg.value <= m && (m == emsg.value <==> errno == 0))
  {
    var m := Fatal(token, emsg, errno, strerror).message;
    if emsg.Some? && errno != 0 {
      assert m == (emsg.value + ": ") + strerror(errno);
      assert emsg.value <= emsg.value + ": ";
      assert |m| > |emsg.value|;
    }
  }

  /** `fatalx` logs its message verbatim, never an error text, and only falls back
      to the text for error 0 when given no message. */
  lemma FatalxVerbatim(emsg: Option<string>, strerror: int -> string)
    ensures Fatalx(emsg, strerror).token == "fatal"
    ensures Fatalx(emsg, strerror).message == if emsg.Some? then emsg.value else strerror(0)
  {
  }

  /** The logger's static state: the verbosity set by `log_init`, whether a handler
      was registered by `log_register`, and the token table. */
  class Logger {
    var debug: int
    var level: int
    var handler: bool
    const tokens: array<Option<string>>

    ghost predicate Valid()
      reads this, tokens
    {
      tokens.Length == MAX_DBG_TOKENS + 1 && tokens[MAX_DBG_TOKENS].None?
    }

    /** The static initialisers: `debug = 1`, `level = 0`, no handler, all entries NULL. */
    constructor ()
      ensures Valid() && fresh(tokens)
      ensures debug == 1 && level == 0 && !handler
      ensures forall k :: 0 <= k < tokens.Length ==> tokens[k].None?
    {
      debug := 1;
      level := 0;
      handler := false;
      tokens := new Option<string>[MAX_DBG_TOKENS + 1](_ => None);
    }

    /** `log_init`: sets the verbosity; opening syslog and the time zone are left out. */
    method Init(nDebug: int, nLevel: int)
      modifies this
      ensures debug == nDebug && level == nLevel && handler == old(handler)
    {
      debug := nDebug;
      level := nLevel;
    }

    /** `log_register`, recording only whether a callback is installed. */
    method Register(present: bool)
      modifies this
      ensures handler == present && debug == old(debug) && level == old(level)
    {
      handler := present;
    }

    /** `log_clear_accept`. */
    method ClearAccept()
      requires Valid()
      modifies tokens
      ensures Valid() && tokens[..] == ClearSpec(old(tokens[..]))
    {
      tokens[0] := None;
    }

    /** `log_accept`: search the first `MAX_DBG_TOKENS` entries for an empty one, empty
        the entry after it and store the token there. */
    method Accept(token: Option<string>)
      requires Valid()
      modifies tokens
      ensures Valid() && tokens[..] == AcceptSpec(old(tokens[..]), token)
    {
      var i := 0;
      while i < MAX_DBG_TOKENS
        invariant 0 <= i <= MAX_DBG_TOKENS
        invariant forall k :: 0 <= k < i ==> tokens[k].Some?
        invariant tokens[..] == old(tokens[..])
      {
        if tokens[i].None? {
          FirstEmptyIs(tokens[..], i);
          tokens[i + 1] := None;
          tokens[i] := token;
          return;
        }
        i := i + 1;
      }
      FirstEmptyIs(tokens[..], MAX_DBG_TOKENS);
    }

    /** `log_debug_accept_token`: look for the token among the entries before the
        first NULL. */
    method AcceptToken(token: Option<string>) returns (r: bool)
      requires Valid()
      ensures r == Accepted(tokens[..], token)
    {
      if token.Some? && tokens[0].Some? {
        var i := 0;
        ghost var v := Visible(tokens[..]);
        while i < MAX_DBG_TOKENS && tokens[i].Some?
          invariant 0 <= i <= |v|
          invariant forall k :: 0 <= k < i ==> v[k] != token.value
        {
          assert tokens[..][i] == Some(v[i]);
          if tokens[i].value == token.value {
            return true;
          }
          i := i + 1;
        }
        FirstEmptyIs(tokens[..], i);
      } else if token.Some? {
        FirstEmptyIs(tokens[..], 0);
      }
      return false;
    }

    /** `log_debug`'s decision to emit, searching the tokens only at level 2. */
    method Debug(token: Option<string>) returns (emit: bool)
      requires Valid()
      ensures emit == DebugEmits(level, handler, Accepted(tokens[..], token))
    {
      var accepted := false;
      if level == 2 {
        accepted := AcceptToken(token);
      }
      emit := (level == 2 && accepted) || handler || level > 2;
    }
  }
}
