/**
 * The argument loop of main: command-line arguments are read in
 * (name, value) pairs from index 1, each name lower-cased and translated
 * through a fixed table of option spellings.
 */
module CommandLine {
  import opened Wrappers

  /** The settings an option can name. */
  datatype Command = ThermostatID | Token | Minutes | ConfigFile | Output | WebhookPost | WebhookGet

  /** The words that ask for the help text. */
  const HELP_WORDS: set<string> := {"help", "-h", "--help"}

  /** Every accepted option spelling and the setting it names. */
  const ARG_TABLE: map<string, Command> := map[
    "--thermostat" := ThermostatID, "-id" := ThermostatID,
    "--token" := Token, "-t" := Token,
    "--minute" := Minutes, "-m" := Minutes,
    "--config" := ConfigFile, "-c" := ConfigFile,
    "--output" := Output, "-o" := Output,
    "--webhook-post" := WebhookPost, "-wp" := WebhookPost,
    "--webhook-get" := WebhookGet, "-wg" := WebhookGet
  ]

  function LowerChar(c: char): char {
    if 'A' <= c <= 'Z' then (c as int - 'A' as int + 'a' as int) as char else c
  }

  /** Lower-casing of the ASCII letters of a string. */
  function Lower(s: string): string {
    seq(|s|, i requires 0 <= i < |s| => LowerChar(s[i]))
  }

  /**
   * The two lookup tables main builds before the loop: the help words
   * and the translation of option spellings.
   */
  datatype Tables = Tables(help: set<string>, translate: map<string, Command>)

  const TABLES := Tables(HELP_WORDS, ARG_TABLE)

  /** An option name the loop accepts: not a help word, and present in the translation table. */
  predicate Accepted(t: Tables, name: string) {
    name !in t.help && name in t.translate
  }

  /** How many (name, value) pairs the loop visits; an unpaired last argument is not visited. */
  function NumPairs(args: seq<string>): nat {
    if |args| < 2 then 0 else (|args| - 1) / 2
  }

  /** The lower-cased name of pair `j`, which sits at index 2j+1; its value sits at 2j+2. */
  function NameAt(args: seq<string>, j: nat): string
    requires j < NumPairs(args)
  {
    Lower(args[2 * j + 1])
  }

  predicate AllAccepted(t: Tables, args: seq<string>, n: nat)
    requires n <= NumPairs(args)
  {
    forall j :: 0 <= j < n ==> Accepted(t, NameAt(args, j))
  }

  /** The setting pair `j` names. */
  function CommandAt(t: Tables, args: seq<string>, j: nat): Command
    requires j < NumPairs(args) && Accepted(t, NameAt(args, j))
  {
    t.translate[NameAt(args, j)]
  }

  /** The map after the first `n` pairs, each pair writing its value under its setting. */
  function Collect(t: Tables, args: seq<string>, n: nat): (m: map<Command, string>)
    requires n <= NumPairs(args) && AllAccepted(t, args, n)
    ensures m.Keys <= t.translate.Values
    ensures n > 0 ==> CommandAt(t, args, n - 1) in m
  {
    if n == 0 then map[]
    else Collect(t, args, n - 1)[CommandAt(t, args, n - 1) := args[2 * n]]
  }

  /** The argument map the loop builds, or None when it stops on an unexpected argument. */
  function ArgMap(t: Tables, args: seq<string>): (r: Option<map<Command, string>>)
    ensures r.None? <==> exists j :: 0 <= j < NumPairs(args) && !Accepted(t, NameAt(args, j))
    ensures r.Some? ==> r.value.Keys <= t.translate.Values
  {
    if AllAccepted(t, args, NumPairs(args)) then Some(Collect(t, args, NumPairs(args))) else None
  }

  /** The stepping loop that fills the argument map. */
  method ParseArgs(t: Tables, args: seq<string>) returns (r: Option<map<Command, string>>)
    ensures r == ArgMap(t, args)
  {
    var argMap: map<Command, string> := map[];
    var i := 1;
    ghost var k := 0;
    while i < |args| - 1
      invariant i == 2 * k + 1 && k <= NumPairs(args)
      invariant AllAccepted(t, args, k)
      invariant argMap == Collect(t, args, k)
    {
      var argName := Lower(args[i]);
      if argName in t.help || argName !in t.translate {
        assert !Accepted(t, NameAt(args, k));
        return None;
      }
      argMap := argMap[t.translate[argName] := args[i + 1]];
      i, k := i + 2, k + 1;
    }
    assert k == NumPairs(args);
    return Some(argMap);
  }

  /** A setting is in the map exactly when some pair names it. */
  lemma {:induction false} CollectKeys(t: Tables, args: seq<string>, n: nat, c: Command)
    requires n <= NumPairs(args) && AllAccepted(t, args, n)
    ensures c in Collect(t, args, n) <==> exists j :: 0 <= j < n && CommandAt(t, args, j) == c
  {
    if n > 0 {
      CollectKeys(t, args, n - 1, c);
      if CommandAt(t, args, n - 1) == c {
        assert 0 <= n - 1 < n && CommandAt(t, args, n - 1) == c;
      }
    }
  }

  /** The value stored for a setting is that of the last pair naming it. */
  lemma {:induction false} CollectLastWins(t: Tables, args: seq<string>, n: nat, j: nat)
    requires n <= NumPairs(args) && AllAccepted(t, args, n)
    requires j < n
    requires forall j' :: j < j' < n ==> CommandAt(t, args, j') != CommandAt(t, args, j)
    ensures CommandAt(t, args, j) in Collect(t, args, n)
    ensures Collect(t, args, n)[CommandAt(t, args, j)] == args[2 * j + 2]
  {
    if j < n - 1 {
      CollectLastWins(t, args, n - 1, j);
    }
  }

  /** No later pair names the setting of pair `j`. */
  predicate NotRenamedAfter(t: Tables, args: seq<string>, j: nat)
    requires j < NumPairs(args) && AllAccepted(t, args, NumPairs(args))
  {
    forall j' :: j < j' < NumPairs(args) ==> CommandAt(t, args, j') != CommandAt(t, args, j)
  }

  /** On success, the map holds exactly the named settings, each with the value of its last pair. */
  lemma ArgMapMeaning(t: Tables, args: seq<string>, c: Command)
    requires ArgMap(t, args).Some?
    ensures c in ArgMap(t, args).value <==> exists j :: 0 <= j < NumPairs(args) && CommandAt(t, args, j) == c
    ensures forall j :: 0 <= j < NumPairs(args) && CommandAt(t, args, j) == c && NotRenamedAfter(t, args, j) ==>
      c in ArgMap(t, args).value && ArgMap(t, args).value[c] == args[2 * j + 2]
  {
    CollectKeys(t, args, NumPairs(args), c);
    forall j | 0 <= j < NumPairs(args) && CommandAt(t, args, j) == c && NotRenamedAfter(t, args, j)
      ensures c in ArgMap(t, args).value && ArgMap(t, args).value[c] == args[2 * j + 2]
    {
      CollectLastWins(t, args, NumPairs(args), j);
    }
  }

  /** Any pair whose name is a help word or not an option makes the whole parse fail. */
  lemma RejectsUnexpected(t: Tables, args: seq<string>, j: nat)
    requires j < NumPairs(args)
    requires NameAt(args, j) in t.help || NameAt(args, j) !in t.translate
    ensures ArgMap(t, args) == None
  {
    assert !Accepted(t, NameAt(args, j));
  }

  /** Two argument lists that agree on the first 2n+1 entries give the same map after n pairs. */
  lemma {:induction false} CollectPrefix(t: Tables, args: seq<string>, other: seq<string>, n: nat)
    requires n <= NumPairs(args) && n <= NumPairs(other)
    requires 2 * n < |args| && 2 * n < |other|
    requires forall i :: 0 <= i <= 2 * n ==> args[i] == other[i]
    requires AllAccepted(t, args, n)
    ensures AllAccepted(t, other, n) && Collect(t, args, n) == Collect(t, other, n)
  {
    SameNames(args, other, n);
    if n > 0 {
      CollectPrefix(t, args, other, n - 1);
    }
  }

  lemma SameNames(args: seq<string>, other: seq<string>, n: nat)
    requires n <= NumPairs(args) && n <= NumPairs(other)
    requires 2 * n < |args| && 2 * n < |other|
    requires forall i :: 0 <= i <= 2 * n ==> args[i] == other[i]
    ensures forall j :: 0 <= j < n ==> NameAt(other, j) == NameAt(args, j)
  {
    forall j | 0 <= j < n ensures NameAt(other, j) == NameAt(args, j) {
      assert args[2 * j + 1] == other[2 * j + 1];
    }
  }

  /** An unpaired trailing argument is ignored. */
  lemma TrailingArgumentIgnored(t: Tables, args: seq<string>)
    requires |args| >= 2 && |args| % 2 == 0
    ensures ArgMap(t, args) == ArgMap(t, args[..|args| - 1])
  {
    var shorter := args[..|args| - 1];
    var n := NumPairs(args);
    assert NumPairs(shorter) == n;
    assert forall i :: 0 <= i <= 2 * n ==> args[i] == shorter[i];
    if AllAccepted(t, args, n) {
      CollectPrefix(t, args, shorter, n);
    } else if AllAccepted(t, shorter, n) {
      CollectPrefix(t, shorter, args, n);
    }
  }
}
