/** The `-key=value` command-line parser of analysis/_parse_arguments.py.

    Each argument is searched (anywhere in it, leftmost match first) for a
    '-', a non-empty key made of characters other than '=' and space, an
    '=', and a non-empty value made of characters other than space.  The
    key is stored lower-cased, the value as it is; arguments without such
    a match are ignored, and a later argument overwrites an earlier one
    with the same lower-cased key. */
module ArgParse {
  import opened Wrappers

  datatype KeyValue = KeyValue(key: string, value: string)

  predicate KeyChar(ch: char)
  {
    ch != '=' && ch != ' '
  }

  predicate ValueChar(ch: char)
  {
    ch != ' '
  }

  /** Length of the run of key characters starting at position i. */
  function KeyRun(s: string, i: nat): (n: nat)
    requires i <= |s|
    ensures i + n <= |s|
    ensures forall j | i <= j < i + n :: KeyChar(s[j])
    ensures i + n == |s| || !KeyChar(s[i + n])
    decreases |s| - i
  {
    if i < |s| && KeyChar(s[i]) then 1 + KeyRun(s, i + 1) else 0
  }

  /** Length of the run of value characters starting at position i. */
  function ValueRun(s: string, i: nat): (n: nat)
    requires i <= |s|
    ensures i + n <= |s|
    ensures forall j | i <= j < i + n :: ValueChar(s[j])
    ensures i + n == |s| || !ValueChar(s[i + n])
    decreases |s| - i
  {
    if i < |s| && ValueChar(s[i]) then 1 + ValueRun(s, i + 1) else 0
  }

  /** The match of the pattern starting exactly at position p, if any.  The
      key run is greedy; a shorter key would be followed by a key
      character, not by '=', so backtracking cannot produce another
      match, and the value run is greedy as well. */
  function MatchAt(s: string, p: nat): (m: Option<KeyValue>)
    requires p <= |s|
    ensures m.Some? ==> IsMatch(s, p, m.value)
  {
    if p < |s| && s[p] == '-' then
      var k := KeyRun(s, p + 1);
      var eq := p + 1 + k;
      if k > 0 && eq < |s| && s[eq] == '=' then
        var v := ValueRun(s, eq + 1);
        if v > 0 then Some(KeyValue(s[p + 1..eq], s[eq + 1..eq + 1 + v])) else None
      else None
    else None
  }

  /** The pattern `-key=value` occurs at position p with this key and
      value, each run as long as it can be. */
  predicate IsMatch(s: string, p: nat, m: KeyValue)
  {
    var eq := p + 1 + |m.key|;
    var end := eq + 1 + |m.value|;
    end <= |s| && s[p] == '-' && s[eq] == '='
    && |m.key| > 0 && s[p + 1..eq] == m.key && (forall ch | ch in m.key :: KeyChar(ch))
    && |m.value| > 0 && s[eq + 1..end] == m.value && (forall ch | ch in m.value :: ValueChar(ch))
    && (end == |s| || s[end] == ' ')
  }

  /** The pattern cannot occur at position p when the character there is
      not '-'. */
  lemma NoMatchWithoutDash(s: string, p: nat)
    requires p < |s| && s[p] != '-'
    ensures MatchAt(s, p) == None
  {
  }

  /** A maximal run of key characters of length n at i is KeyRun's. */
  lemma {:induction false} KeyRunIs(s: string, i: nat, n: nat)
    requires i + n <= |s| && (forall j | i <= j < i + n :: KeyChar(s[j]))
    requires i + n == |s| || !KeyChar(s[i + n])
    ensures KeyRun(s, i) == n
    decreases n
  {
    if n > 0 {
      KeyRunIs(s, i + 1, n - 1);
    }
  }

  /** A maximal run of value characters of length n at i is ValueRun's. */
  lemma {:induction false} ValueRunIs(s: string, i: nat, n: nat)
    requires i + n <= |s| && (forall j | i <= j < i + n :: ValueChar(s[j]))
    requires i + n == |s| || !ValueChar(s[i + n])
    ensures ValueRun(s, i) == n
    decreases n
  {
    if n > 0 {
      ValueRunIs(s, i + 1, n - 1);
    }
  }

  /** The key of an occurrence is the key run after its '-'. */
  lemma MatchKey(s: string, p: nat, m: KeyValue)
    requires IsMatch(s, p, m)
    ensures KeyRun(s, p + 1) == |m.key|
  {
    var eq := p + 1 + |m.key|;
    forall j | p + 1 <= j < eq
      ensures KeyChar(s[j])
    {
      assert s[p + 1..eq][j - (p + 1)] == s[j];
      assert m.key[j - (p + 1)] in m.key;
    }
    KeyRunIs(s, p + 1, |m.key|);
  }

  /** The value of an occurrence is the value run after its '='. */
  lemma MatchValue(s: string, p: nat, m: KeyValue)
    requires IsMatch(s, p, m)
    ensures ValueRun(s, p + 2 + |m.key|) == |m.value|
  {
    var eq := p + 1 + |m.key|;
    forall j | eq + 1 <= j < eq + 1 + |m.value|
      ensures ValueChar(s[j])
    {
      assert s[eq + 1..eq + 1 + |m.value|][j - (eq + 1)] == s[j];
      assert m.value[j - (eq + 1)] in m.value;
    }
    ValueRunIs(s, eq + 1, |m.value|);
  }

  /** Every occurrence of the pattern at p is the one MatchAt finds. */
  lemma MatchAtComplete(s: string, p: nat, m: KeyValue)
    requires p <= |s| && IsMatch(s, p, m)
    ensures MatchAt(s, p) == Some(m)
  {
    MatchKey(s, p, m);
    MatchValue(s, p, m);
  }

  /** re.search: the match at the leftmost position from `from` on. */
  function SearchFrom(s: string, from: nat): (m: Option<KeyValue>)
    requires from <= |s|
    decreases |s| - from
  {
    if from == |s| then None
    else if MatchAt(s, from).Some? then MatchAt(s, from)
    else SearchFrom(s, from + 1)
  }

  function Search(s: string): Option<KeyValue>
  {
    SearchFrom(s, 0)
  }

  /** Search finds nothing exactly when the pattern occurs nowhere from
      `from` on. */
  lemma {:induction false} SearchNone(s: string, from: nat)
    requires from <= |s|
    ensures SearchFrom(s, from).None? <==> forall p | from <= p <= |s| :: MatchAt(s, p).None?
    decreases |s| - from
  {
    if from < |s| && MatchAt(s, from).None? {
      SearchNone(s, from + 1);
    }
  }

  /** When the pattern occurs at p and nowhere between `from` and p,
      Search finds the match at p. */
  lemma {:induction false} SearchLeftmost(s: string, from: nat, p: nat)
    requires from <= p < |s| && MatchAt(s, p).Some?
    requires forall q | from <= q < p :: MatchAt(s, q).None?
    ensures SearchFrom(s, from) == MatchAt(s, p)
    decreases p - from
  {
    if from < p {
      SearchLeftmost(s, from + 1, p);
    }
  }

  /** An argument without any '-' cannot match and is ignored. */
  lemma NoDashNoMatch(s: string)
    requires forall p | 0 <= p < |s| :: s[p] != '-'
    ensures Search(s) == None
  {
    SearchNone(s, 0);
  }

  /** ASCII lower-casing of one character. */
  function LowerChar(ch: char): (r: char)
    ensures 'A' <= ch <= 'Z' ==> 'a' <= r <= 'z' && r as int - 'a' as int == ch as int - 'A' as int
    ensures !('A' <= ch <= 'Z') ==> r == ch
  {
    if 'A' <= ch <= 'Z' then (ch as int - 'A' as int + 'a' as int) as char else ch
  }

  function Lower(s: string): (r: string)
    ensures |r| == |s| && forall i | 0 <= i < |s| :: r[i] == LowerChar(s[i])
  {
    seq(|s|, i requires 0 <= i < |s| => LowerChar(s[i]))
  }

  /** Lower-casing twice is lower-casing once. */
  lemma LowerIdempotent(s: string)
    ensures Lower(Lower(s)) == Lower(s)
  {
  }

  /** The dictionary after the arguments `args`, processed in order. */
  function Parsed(args: seq<string>): map<string, string>
  {
    if args == [] then map[]
    else
      var before := Parsed(args[..|args| - 1]);
      match Search(args[|args| - 1])
      case Some(kv) => before[Lower(kv.key) := kv.value]
      case None => before
  }

  /** parse_args: one dictionary insertion per matching argument. */
  method ParseArgs(args: seq<string>) returns (parsed: map<string, string>)
    ensures parsed == Parsed(args)
  {
    parsed := map[];
    var i := 0;
    while i < |args|
      invariant 0 <= i <= |args|
      invariant parsed == Parsed(args[..i])
    {
      var m := Search(args[i]);
      if m.Some? {
        parsed := parsed[Lower(m.value.key) := m.value.value];
      }
      assert args[..i + 1][..i] == args[..i];
      i := i + 1;
    }
    assert args[..i] == args;
  }

  /** Whether argument i stores a value under key `key`. */
  predicate StoresKey(args: seq<string>, i: nat, key: string)
    requires i < |args|
  {
    Search(args[i]).Some? && Lower(Search(args[i]).value.key) == key
  }

  /** The dictionary after one more argument. */
  lemma ParsedLast(args: seq<string>, key: string)
    requires args != []
    ensures StoresKey(args, |args| - 1, key) ==>
      key in Parsed(args) && Parsed(args)[key] == Search(args[|args| - 1]).value.value
    ensures !StoresKey(args, |args| - 1, key) ==>
      (key in Parsed(args) <==> key in Parsed(args[..|args| - 1]))
      && (key in Parsed(args) ==> Parsed(args)[key] == Parsed(args[..|args| - 1])[key])
  {
  }

  /** A key is in the dictionary exactly when some argument stores a value
      under it. */
  lemma {:induction false} KeysStored(args: seq<string>, key: string)
    ensures key in Parsed(args) <==> exists i | 0 <= i < |args| :: StoresKey(args, i, key)
  {
    if args != [] {
      var init := args[..|args| - 1];
      KeysStored(init, key);
      ParsedLast(args, key);
      assert forall i | 0 <= i < |init| :: StoresKey(init, i, key) == StoresKey(args, i, key);
    }
  }

  /** The value under a key is that of the last argument storing under it. */
  lemma {:induction false} LastWins(args: seq<string>, key: string, i: nat)
    requires i < |args| && StoresKey(args, i, key)
    requires forall j | i < j < |args| :: !StoresKey(args, j, key)
    ensures key in Parsed(args) && Parsed(args)[key] == Search(args[i]).value.value
  {
    var init := args[..|args| - 1];
    ParsedLast(args, key);
    if i < |args| - 1 {
      assert forall j | i < j < |init| :: StoresKey(init, j, key) == StoresKey(args, j, key);
      assert init[i] == args[i];
      LastWins(init, key, i);
    }
  }

  /** No arguments, no entries. */
  lemma NoArguments()
    ensures Parsed([]) == map[]
  {
  }
}
