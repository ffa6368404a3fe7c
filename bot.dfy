/**
 * The responder's string logic: splitting "user: text", matching trigger words, looking up
 * configured answers and executors, and the order in which `response` tries them.
 */
module Bot {
  import opened Wrappers
  import opened Text

  /** One configured command: its trigger words and its fixed answer. */
  datatype Command = Command(triggers: seq<string>, response: string)

  /**
   * The loaded configuration. `commands` and `executors` keep the configuration file's order
   * (Python dictionaries iterate in insertion order); `text` is only looked up by key.
   */
  datatype Config = Config(
    commands: seq<(string, Command)>,
    text: map<string, string>,
    executors: seq<(string, seq<string>)>)

  /** The words a message is matched against: lower-cased, split on single spaces. */
  function Words(message: string): seq<string> {
    Split(Lower(message))
  }

  /** `_is_in_message(message, *args)`: some trigger is one of the message's words. */
  function IsInMessage(message: string, args: seq<string>): (r: bool)
    ensures r <==> exists i :: 0 <= i < |args| && args[i] in Words(message)
  {
    if args == [] then false
    else args[0] in Words(message) || IsInMessage(message, args[1..])
  }

  /** The position of the first trigger list that matches the message. */
  function FirstMatch(lists: seq<seq<string>>, message: string): (r: Option<nat>)
    ensures r.None? <==> forall j :: 0 <= j < |lists| ==> !IsInMessage(message, lists[j])
    ensures r.Some? ==> r.value < |lists| && IsInMessage(message, lists[r.value])
    ensures r.Some? ==> forall j :: 0 <= j < r.value ==> !IsInMessage(message, lists[j])
  {
    if lists == [] then None
    else if IsInMessage(message, lists[0]) then Some(0)
    else match FirstMatch(lists[1..], message)
      case None => None
      case Some(k) => Some(k + 1)
  }

  function CommandTriggers(commands: seq<(string, Command)>): (r: seq<seq<string>>)
    ensures |r| == |commands| && forall i :: 0 <= i < |commands| ==> r[i] == commands[i].1.triggers
  {
    seq(|commands|, i requires 0 <= i < |commands| => commands[i].1.triggers)
  }

  function ExecutorTriggers(executors: seq<(string, seq<string>)>): (r: seq<seq<string>>)
    ensures |r| == |executors| && forall i :: 0 <= i < |executors| ==> r[i] == executors[i].1
  {
    seq(|executors|, i requires 0 <= i < |executors| => executors[i].1)
  }

  /** `get_answer`: the answer of the first command, in configuration order, whose triggers match. */
  function GetAnswer(cfg: Config, message: string): (r: Option<string>)
    ensures r.None? <==> forall j :: 0 <= j < |cfg.commands| ==> !IsInMessage(message, cfg.commands[j].1.triggers)
    ensures r.Some? ==> exists i :: 0 <= i < |cfg.commands|
                                    && IsInMessage(message, cfg.commands[i].1.triggers)
                                    && r.value == cfg.commands[i].1.response
                                    && forall j :: 0 <= j < i ==> !IsInMessage(message, cfg.commands[j].1.triggers)
  {
    match FirstMatch(CommandTriggers(cfg.commands), message)
    case None => None
    case Some(i) => Some(cfg.commands[i].1.response)
  }

  /** `get_exec`: the key of the first executor, in configuration order, whose triggers match. */
  function GetExec(cfg: Config, message: string): (r: Option<string>)
    ensures r.None? <==> forall j :: 0 <= j < |cfg.executors| ==> !IsInMessage(message, cfg.executors[j].1)
    ensures r.Some? ==> exists i :: 0 <= i < |cfg.executors|
                                    && IsInMessage(message, cfg.executors[i].1)
                                    && r.value == cfg.executors[i].0
                                    && forall j :: 0 <= j < i ==> !IsInMessage(message, cfg.executors[j].1)
  {
    match FirstMatch(ExecutorTriggers(cfg.executors), message)
    case None => None
    case Some(i) => Some(cfg.executors[i].0)
  }

  /** `_is_command`: its own scan over the commands, stopping at the first match. */
  function IsCommandIn(commands: seq<(string, Command)>, message: string): (r: bool)
    ensures r <==> exists i :: 0 <= i < |commands| && IsInMessage(message, commands[i].1.triggers)
  {
    if commands == [] then false
    else IsInMessage(message, commands[0].1.triggers) || IsCommandIn(commands[1..], message)
  }

  /** `_is_exec`: its own scan over the executors, stopping at the first match. */
  function IsExecIn(executors: seq<(string, seq<string>)>, message: string): (r: bool)
    ensures r <==> exists i :: 0 <= i < |executors| && IsInMessage(message, executors[i].1)
  {
    if executors == [] then false
    else IsInMessage(message, executors[0].1) || IsExecIn(executors[1..], message)
  }

  /** `_is_command` holds exactly when `get_answer` finds an answer. */
  lemma IsCommandIffAnswer(cfg: Config, message: string)
    ensures IsCommandIn(cfg.commands, message) <==> GetAnswer(cfg, message).Some?
  {
  }

  /** `_is_exec` holds exactly when `get_exec` finds an executor. */
  lemma IsExecIffExec(cfg: Config, message: string)
    ensures IsExecIn(cfg.executors, message) <==> GetExec(cfg, message).Some?
  {
  }

  /** `_is_text`: the message is a key of the text table, so `get_text` finds it. */
  predicate IsText(cfg: Config, message: string)
    ensures IsText(cfg, message) <==> GetText(cfg, message).Some?
  {
    message in cfg.text
  }

  /** Some backslash is followed by the letter n. */
  predicate HasEscape(s: string) {
    exists i :: 0 <= i < |s| - 1 && s[i] == '\\' && s[i + 1] == 'n'
  }

  /** `s.replace('\\n', '\n')`: every backslash-n pair, scanned left to right, becomes a newline. */
  function Unescape(s: string): (r: string)
    ensures s != [] ==> r != [] && r[0] == (if |s| >= 2 && s[0] == '\\' && s[1] == 'n' then '\n' else s[0])
    ensures !HasEscape(r)
    ensures !HasEscape(s) ==> r == s
  {
    if |s| >= 2 && s[0] == '\\' && s[1] == 'n' then
      assert HasEscape(s[2..]) ==> HasEscape(s) by {
        if HasEscape(s[2..]) {
          var i :| 0 <= i < |s[2..]| - 1 && s[2..][i] == '\\' && s[2..][i + 1] == 'n';
          assert s[i + 2] == '\\' && s[i + 3] == 'n';
        }
      }
      ['\n'] + Unescape(s[2..])
    else if s == [] then []
    else
      assert HasEscape(s[1..]) ==> HasEscape(s) by {
        if HasEscape(s[1..]) {
          var i :| 0 <= i < |s[1..]| - 1 && s[1..][i] == '\\' && s[1..][i + 1] == 'n';
          assert s[i + 1] == '\\' && s[i + 2] == 'n';
        }
      }
      [s[0]] + Unescape(s[1..])
  }

  /** Writes every newline back as a backslash-n pair. */
  function Escape(s: string): string {
    if s == [] then [] else (if s[0] == '\n' then "\\n" else [s[0]]) + Escape(s[1..])
  }

  /** On text without raw newlines, escaping undoes `replace('\\n', '\n')`. */
  lemma {:induction false} EscapeUnescape(s: string)
    requires '\n' !in s
    ensures Escape(Unescape(s)) == s
  {
    if |s| >= 2 && s[0] == '\\' && s[1] == 'n' {
      EscapeUnescape(s[2..]);
      assert (['\n'] + Unescape(s[2..]))[1..] == Unescape(s[2..]);
      assert s == "\\n" + s[2..];
    } else if s != [] {
      EscapeUnescape(s[1..]);
      assert ([s[0]] + Unescape(s[1..]))[1..] == Unescape(s[1..]);
      assert s == [s[0]] + s[1..];
    }
  }

  /**
   * `replace('\\n', '\n')` works on every pair wherever it sits: the text before a pair, the pair
   * and the text after it are converted independently. With the unchanged case of `Unescape`
   * this fixes the result on every text, raw newlines included.
   */
  lemma {:induction false} UnescapeSplit(a: string, b: string)
    ensures Unescape(a + "\\n" + b) == Unescape(a) + "\n" + Unescape(b)
    decreases |a|
  {
    var s := a + "\\n" + b;
    if a == [] {
      assert s == "\\n" + b && s[2..] == b;
      UnescapePair(s);
      assert Unescape(a) + "\n" == "\n";
      assert Unescape(s) == Unescape(a) + "\n" + Unescape(b);
    } else if |a| >= 2 && a[0] == '\\' && a[1] == 'n' {
      var rest := a[2..] + "\\n" + b;
      assert s[0] == '\\' && s[1] == 'n' && s[2..] == rest;
      UnescapePair(s);
      UnescapePair(a);
      UnescapeSplit(a[2..], b);
      Reassociate("\n", Unescape(a[2..]), "\n", Unescape(b));
      assert Unescape(s) == Unescape(a) + "\n" + Unescape(b);
    } else {
      var rest := a[1..] + "\\n" + b;
      assert s[0] == a[0] && s[1..] == rest;
      assert s[1] == (if |a| >= 2 then a[1] else '\\');
      UnescapeOther(s);
      UnescapeOther(a);
      UnescapeSplit(a[1..], b);
      Reassociate([a[0]], Unescape(a[1..]), "\n", Unescape(b));
      assert Unescape(s) == Unescape(a) + "\n" + Unescape(b);
    }
  }

  lemma Reassociate(p: string, q: string, r: string, t: string)
    ensures p + (q + r + t) == p + q + r + t
  {
  }

  /** A leading backslash-n pair becomes a newline. */
  lemma UnescapePair(t: string)
    requires |t| >= 2 && t[0] == '\\' && t[1] == 'n'
    ensures Unescape(t) == "\n" + Unescape(t[2..])
  {
  }

  /** Any other leading character is kept. */
  lemma UnescapeOther(t: string)
    requires t != [] && !(|t| >= 2 && t[0] == '\\' && t[1] == 'n')
    ensures Unescape(t) == [t[0]] + Unescape(t[1..])
  {
  }

  /** A stored text with a backslash-n pair is returned with that pair turned into a newline and both sides converted. */
  lemma GetTextSplit(cfg: Config, key: string, a: string, b: string)
    requires key in cfg.text && cfg.text[key] == a + "\\n" + b
    ensures GetText(cfg, key) == Some(Unescape(a) + "\n" + Unescape(b))
  {
    UnescapeSplit(a, b);
  }

  /**
   * `get_text(key)`: the stored text with its backslash-n pairs turned into newlines;
   * `None` where a missing key raises KeyError.
   */
  function GetText(cfg: Config, key: string): (r: Option<string>)
    ensures r.None? <==> key !in cfg.text
    ensures r.Some? ==> !HasEscape(r.value)
    ensures r.Some? && !HasEscape(cfg.text[key]) ==> r.value == cfg.text[key]
  {
    if key in cfg.text then Some(Unescape(cfg.text[key])) else None
  }

  /** The users allowed to reload and reconnect the bot. */
  const ADMINS: set<string> := {"chris", "mirza"}

  /** `is_admin`: one of exactly two user names. */
  predicate IsAdmin(username: string)
    ensures IsAdmin(username) <==> username in ADMINS
  {
    username == "chris" || username == "mirza"
  }

  /** Index of the first character that is not a colon (|s| if there is none). */
  function FirstNonColon(s: string): (i: nat)
    ensures i <= |s|
    ensures forall k :: 0 <= k < i ==> s[k] == ':'
    ensures i < |s| ==> s[i] != ':'
  {
    if s == [] || s[0] != ':' then 0 else 1 + FirstNonColon(s[1..])
  }

  /** Index of the first occurrence of c at or after position i (|s| if there is none). */
  function FindFrom(s: string, c: char, i: nat): (k: nat)
    requires i <= |s|
    ensures i <= k <= |s|
    ensures forall m :: i <= m < k ==> s[m] != c
    ensures k < |s| ==> s[k] == c
    decreases |s| - i
  {
    if i == |s| || s[i] == c then i else FindFrom(s, c, i + 1)
  }

  /**
   * `re.search(r"([^:]+):(.*)", s)`, as the positions (start, colon, end) of the leftmost match:
   * group 1 is s[start..colon] and group 2 is s[colon + 1..end]. Everything before the start is a
   * colon, group 1 is a maximal run of non-colons, and group 2 (`.` does not match a newline) runs
   * to the next newline or the end.
   */
  function Match(s: string): (r: Option<(nat, nat, nat)>)
    ensures r.None? <==> forall i, k :: 0 <= i < k < |s| && s[i] != ':' ==> s[k] != ':'
    ensures r.Some? ==>
      var (i, k, e) := r.value;
      && i < k < e + 1 <= |s| + 1
      && (forall m :: 0 <= m < i ==> s[m] == ':')
      && (forall m :: i <= m < k ==> s[m] != ':') && s[k] == ':'
      && (forall m :: k < m < e ==> s[m] != '\n') && (e == |s| || s[e] == '\n')
  {
    var i := FirstNonColon(s);
    var k := if i < |s| then FindFrom(s, ':', i) else |s|;
    if k == |s| then
      assert forall i', k' :: 0 <= i' < k' < |s| && s[i'] != ':' ==> s[k'] != ':' by {
        forall i', k' | 0 <= i' < k' < |s| && s[i'] != ':'
          ensures s[k'] != ':'
        {
          assert i <= i';
        }
      }
      None
    else
      Some((i, k, FindFrom(s, '\n', k + 1)))
  }

  /**
   * `split_message`: without a colon after a non-colon character the message comes back whole with
   * an empty user; otherwise the user is the stripped first group and the text the stripped second.
   */
  function SplitMessage(s: string): (r: (string, string))
    ensures Match(s).None? ==> r == ("", s)
    ensures Match(s).Some? ==>
      var (i, k, e) := Match(s).value;
      && r == (Strip(s[i..k]), Strip(s[k + 1..e]))
      && ':' !in r.0 && '\n' !in r.1
  {
    match Match(s)
    case None => ("", s)
    case Some((i, k, e)) =>
      StripWithin(s[i..k]);
      StripWithin(s[k + 1..e]);
      (Strip(s[i..k]), Strip(s[k + 1..e]))
  }

  /** Stripping only removes characters. */
  lemma StripWithin(s: string)
    ensures forall c :: c in Strip(s) ==> c in s
  {
    var i := LeadingSpaces(s);
    var j := i + |s[i..]| - TrailingSpaces(s[i..]);
    var r := Strip(s);
    assert r == s[i..j];
    forall c | c in r ensures c in s {
      var m :| 0 <= m < |r| && r[m] == c;
      assert s[i + m] == c;
    }
  }

  /** What `response` leads to. */
  datatype Action =
    | Joke                            // the joke service's text
    | ChuckNorris                     // the Chuck Norris service's text
    | DirectMessage(username: string) // prepare_direct_message(username)
    | Reload                          // reload the configuration, then answer "reload_success"
    | Reconnect                       // disconnect, connect, re-select the chat, then answer "reconnect_success"
    | Mensa                           // today's canteen menu

  datatype Dispatch =
    | Answer(text: Option<string>)    // the value `get_answer` returned
    | Run(action: Action)
    | Silent                          // `response` returns None

  /**
   * `response(msg)`: commands are tried before executors; `reload` and `reconnect` need an admin;
   * an executor key the dispatcher does not know, or a message nothing matches, gives no reply.
   */
  function Response(cfg: Config, msg: string): (r: Dispatch)
    ensures var (user, input) := SplitMessage(msg);
      && (IsCommandIn(cfg.commands, input) ==> r == Answer(GetAnswer(cfg, input)) && r.text.Some?)
      && (!IsCommandIn(cfg.commands, input) && !IsExecIn(cfg.executors, input) ==> r == Silent)
      && (!IsCommandIn(cfg.commands, input) && GetExec(cfg, input).Some? ==>
            var e := GetExec(cfg, input).value;
            && (e in {"reload", "reconnect"} && !IsAdmin(user) ==> r == Silent)
            && (e !in {"joke", "dm", "chucknorris", "reload", "reconnect", "mensa"} ==> r == Silent)
            && (e == "joke" ==> r == Run(Joke))
            && (e == "dm" ==> r == Run(DirectMessage(user)))
            && (e == "chucknorris" ==> r == Run(ChuckNorris))
            && (e == "reload" && IsAdmin(user) ==> r == Run(Reload))
            && (e == "reconnect" && IsAdmin(user) ==> r == Run(Reconnect))
            && (e == "mensa" ==> r == Run(Mensa)))
      && (r.Run? ==> !IsCommandIn(cfg.commands, input) && GetExec(cfg, input).Some?)
      && (r == Run(Reload) || r == Run(Reconnect) ==> IsAdmin(user))
  {
    var (user, input) := SplitMessage(msg);
    IsCommandIffAnswer(cfg, input);
    IsExecIffExec(cfg, input);
    if IsCommandIn(cfg.commands, input) then
      Answer(GetAnswer(cfg, input))
    else if IsExecIn(cfg.executors, input) then
      var e := GetExec(cfg, input).value;
      if e == "joke" then Run(Joke)
      else if e == "dm" then Run(DirectMessage(user))
      else if e == "chucknorris" then Run(ChuckNorris)
      else if e == "reload" then (if IsAdmin(user) then Run(Reload) else Silent)
      else if e == "reconnect" then (if IsAdmin(user) then Run(Reconnect) else Silent)
      else if e == "mensa" then Run(Mensa)
      else Silent
    else Silent
  }
}
