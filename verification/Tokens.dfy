/** The list of API keys in the configuration file: creating and revoking tokens. */
module Tokens {
  import opened Options
  import opened Strings

  /** A key entry, or something else that stands in the list; an entry without a key has key "". */
  datatype Entry =
    | Token(key: string, actor: string, scope: string, space: string, prefix: string)
    | Unrecognised(text: string)

  /** The `[auth]` section; a missing type or list is empty. */
  datatype Auth = Auth(kind: string, keys: seq<Entry>)

  datatype Config = Config(auth: Option<Auth>)

  datatype Op =
    | Create(scope: string, actor: string, space: string, prefix: string, key: string)
    | Revoke(keyPrefix: string)

  /**
   What a command finds of a key list that was saved before: the file is encoded, decoded,
   and the decoded list passed through the commands' type assertion. Finding nothing is `[]`.
   */
  type Reload = seq<Entry> -> seq<Entry>

  /** Every saved list is found again. */
  ghost predicate Faithful(reload: Reload) {
    forall keys :: reload(keys) == keys
  }

  /** A list of nothing but tables is not found: its decoded type is not the asserted one. */
  ghost predicate HidesTables(reload: Reload) {
    forall keys :: AllTokens(keys) ==> reload(keys) == []
  }

  predicate AllTokens(keys: seq<Entry>) {
    forall i :: 0 <= i < |keys| ==> keys[i].Token?
  }

  function KeysOf(c: Config): seq<Entry> {
    if c.auth.Some? then c.auth.value.keys else []
  }

  predicate Matches(e: Entry, keyPrefix: string) {
    e.Token? && HasPrefix(e.key, keyPrefix)
  }

  predicate ValidScope(scope: string) {
    scope == "read" || scope == "write" || scope == "admin"
  }

  function Created(op: Op): Entry
    requires op.Create?
  {
    Token(op.key, if op.actor == "" then op.scope + "-token" else op.actor, op.scope, op.space, op.prefix)
  }

  function Remaining(keys: seq<Entry>, keyPrefix: string): seq<Entry> {
    if keys == [] then []
    else
      Remaining(keys[..|keys| - 1], keyPrefix)
      + (if Matches(keys[|keys| - 1], keyPrefix) then [] else [keys[|keys| - 1]])
  }

  predicate AnyMatch(keys: seq<Entry>, keyPrefix: string) {
    exists i :: 0 <= i < |keys| && Matches(keys[i], keyPrefix)
  }

  /** The command on the configuration it loaded; `ok` is false when it fails. */
  function Apply(c: Config, op: Op): (r: (Config, bool)) {
    match op
    case Create(scope, _, _, _, _) =>
      if !ValidScope(scope) then (c, false)
      else
        var auth := if c.auth.Some? then c.auth.value else Auth("", []);
        (Config(Some(Auth(Fixed(auth.kind), auth.keys + [Created(op)]))), true)
    case Revoke(keyPrefix) =>
      if !AnyMatch(KeysOf(c), keyPrefix) then (c, false)
      else (Config(Some(c.auth.value.(keys := Remaining(KeysOf(c), keyPrefix)))), true)
  }

  /** The type that a create leaves: a missing or switched-off one becomes per-key. */
  function Fixed(kind: string): string {
    if kind == "" || kind == "none" then "perspace" else kind
  }

  function Loaded(reload: Reload, file: Config): Config {
    match file.auth
    case None => file
    case Some(auth) => Config(Some(auth.(keys := reload(auth.keys))))
  }

  /** One command on the file; one that fails writes nothing. */
  function Command(reload: Reload, file: Config, op: Op): (Config, bool) {
    var r := Apply(Loaded(reload, file), op);
    if r.1 then r else (file, false)
  }

  /** The configuration file and the two commands that rewrite it. */
  class TokenFile {
    const reload: Reload
    var file: Config

    constructor (reload: Reload, file: Config)
      ensures this.reload == reload && this.file == file
    {
      this.reload := reload;
      this.file := file;
    }

    method Create(scope: string, actor: string, space: string, prefix: string, key: string) returns (ok: bool)
      modifies this
      ensures (file, ok) == Command(reload, old(file), Op.Create(scope, actor, space, prefix, key))
    {
      if scope != "read" && scope != "write" && scope != "admin" {
        return false;
      }
      var name := actor;
      if name == "" {
        name := scope + "-token";
      }
      var config := Loaded(reload, file);
      var auth := if config.auth.Some? then config.auth.value else Auth("", []);
      if auth.kind == "" || auth.kind == "none" {
        auth := auth.(kind := "perspace");
      }
      auth := auth.(keys := auth.keys + [Token(key, name, scope, space, prefix)]);
      file := config.(auth := Some(auth));
      return true;
    }

    method Revoke(keyPrefix: string) returns (ok: bool)
      modifies this
      ensures (file, ok) == Command(reload, old(file), Op.Revoke(keyPrefix))
    {
      var config := Loaded(reload, file);
      var keys := KeysOf(config);
      if |keys| == 0 {
        return false;
      }
      var found := false;
      var remaining := [];
      var i := 0;
      while i < |keys|
        invariant 0 <= i <= |keys|
        invariant remaining == Remaining(keys[..i], keyPrefix)
        invariant found <==> exists j :: 0 <= j < i && Matches(keys[j], keyPrefix)
      {
        assert keys[..i + 1][..i] == keys[..i];
        if Matches(keys[i], keyPrefix) {
          found := true;
        } else {
          remaining := remaining + [keys[i]];
        }
        i := i + 1;
      }
      assert keys[..i] == keys;
      if !found {
        return false;
      }
      file := config.(auth := Some(config.auth.value.(keys := remaining)));
      return true;
    }
  }

  // ---- any run of commands ----

  /** Each command loads the file that the last one saved. */
  function Run(reload: Reload, file: Config, ops: seq<Op>): Config {
    if ops == [] then file else Command(reload, Run(reload, file, ops[..|ops| - 1]), ops[|ops| - 1]).0
  }

  /** An entry that was ever in the list, and how many commands had run when it came in. */
  datatype Born = Born(entry: Entry, at: nat)

  function InitialBorn(keys: seq<Entry>): seq<Born> {
    seq(|keys|, i requires 0 <= i < |keys| => Born(keys[i], 0))
  }

  /** The initial entries, then the created ones, in order. */
  function AllBorn(keys: seq<Entry>, ops: seq<Op>): seq<Born> {
    if ops == [] then InitialBorn(keys)
    else
      var op := ops[|ops| - 1];
      AllBorn(keys, ops[..|ops| - 1])
      + (if op.Create? && ValidScope(op.scope) then [Born(Created(op), |ops|)] else [])
  }

  /** A revoke that ran after the entry came in names a prefix of its key. */
  predicate RevokedLater(b: Born, ops: seq<Op>) {
    exists j :: b.at <= j < |ops| && ops[j].Revoke? && Matches(b.entry, ops[j].keyPrefix)
  }

  function Survivors(bs: seq<Born>, ops: seq<Op>): seq<Entry> {
    if bs == [] then []
    else
      Survivors(bs[..|bs| - 1], ops) + (if RevokedLater(bs[|bs| - 1], ops) then [] else [bs[|bs| - 1].entry])
  }

  ghost predicate BornBefore(bs: seq<Born>, n: nat) {
    forall i :: 0 <= i < |bs| ==> bs[i].at <= n
  }

  lemma {:induction false} AllBornBefore(keys: seq<Entry>, ops: seq<Op>)
    ensures BornBefore(AllBorn(keys, ops), |ops|)
  {
    if ops != [] {
      AllBornBefore(keys, ops[..|ops| - 1]);
    }
  }

  lemma RevokedLaterSnoc(b: Born, ops: seq<Op>, op: Op)
    requires b.at <= |ops|
    ensures RevokedLater(b, ops + [op])
            <==> RevokedLater(b, ops) || (op.Revoke? && Matches(b.entry, op.keyPrefix))
  {
    var all := ops + [op];
    if RevokedLater(b, ops) {
      var j :| b.at <= j < |ops| && ops[j].Revoke? && Matches(b.entry, ops[j].keyPrefix);
      assert all[j] == ops[j];
    }
    assert all[|ops|] == op;
    if RevokedLater(b, all) {
      var j :| b.at <= j < |all| && all[j].Revoke? && Matches(b.entry, all[j].keyPrefix);
      assert j < |ops| ==> ops[j] == all[j];
    }
  }

  lemma {:induction false} SurviveOneMore(bs: seq<Born>, ops: seq<Op>, op: Op)
    requires BornBefore(bs, |ops|)
    ensures Survivors(bs, ops + [op])
            == if op.Revoke? then Remaining(Survivors(bs, ops), op.keyPrefix) else Survivors(bs, ops)
  {
    if bs != [] {
      var front, b := bs[..|bs| - 1], bs[|bs| - 1];
      SurviveOneMore(front, ops, op);
      RevokedLaterSnoc(b, ops, op);
      var kept := Survivors(front, ops);
      assert (kept + [b.entry])[..|kept|] == kept && kept + [] == kept;
    }
  }

  lemma {:induction false} NothingMatches(keys: seq<Entry>, keyPrefix: string)
    requires !AnyMatch(keys, keyPrefix)
    ensures Remaining(keys, keyPrefix) == keys
  {
    if keys != [] {
      var front := keys[..|keys| - 1];
      forall i | 0 <= i < |front| ensures !Matches(front[i], keyPrefix) {
        assert front[i] == keys[i];
      }
      NothingMatches(front, keyPrefix);
      assert !Matches(keys[|keys| - 1], keyPrefix);
      assert keys == front + [keys[|keys| - 1]];
    }
  }

  lemma {:induction false} NoneRevokedYet(keys: seq<Entry>)
    ensures Survivors(InitialBorn(keys), []) == keys
  {
    if keys != [] {
      var front := keys[..|keys| - 1];
      assert InitialBorn(keys)[..|keys| - 1] == InitialBorn(front);
      NoneRevokedYet(front);
    }
  }

  lemma FaithfulCommand(reload: Reload, file: Config, op: Op)
    requires Faithful(reload)
    ensures Command(reload, file, op) == Apply(file, op)
  {
  }

  /**
   Over any run of commands, when saved lists are found again: the list is the initial
   entries followed by the created ones, in order, without exactly those that a later revoke
   names by a prefix of their key.
   */
  lemma {:induction false} KeysAreSurvivors(reload: Reload, file: Config, ops: seq<Op>)
    requires Faithful(reload)
    ensures KeysOf(Run(reload, file, ops)) == Survivors(AllBorn(KeysOf(file), ops), ops)
  {
    if ops == [] {
      NoneRevokedYet(KeysOf(file));
    } else {
      var front, op := ops[..|ops| - 1], ops[|ops| - 1];
      KeysAreSurvivors(reload, file, front);
      AllBornBefore(KeysOf(file), front);
      assert ops == front + [op];
      var bs := AllBorn(KeysOf(file), front);
      SurviveOneMore(bs, front, op);
      FaithfulCommand(reload, Run(reload, file, front), op);
      if op.Create? {
        if ValidScope(op.scope) {
          var b := Born(Created(op), |ops|);
          assert (bs + [b])[..|bs|] == bs;
          assert !RevokedLater(b, ops);
        } else {
          assert bs + [] == bs;
        }
      } else {
        assert AllBorn(KeysOf(file), ops) == bs + [] == bs;
        if !AnyMatch(KeysOf(Run(reload, file, front)), op.keyPrefix) {
          NothingMatches(KeysOf(Run(reload, file, front)), op.keyPrefix);
        }
      }
    }
  }

  /** Every run ends with the survivors. */
  ghost predicate KeepsSurvivors(reload: Reload) {
    forall file, ops :: KeysOf(Run(reload, file, ops)) == Survivors(AllBorn(KeysOf(file), ops), ops)
  }

  lemma CreateAppends(reload: Reload, keys: seq<Entry>, op: Op)
    requires op.Create? && ValidScope(op.scope)
    ensures KeysOf(Run(reload, Config(Some(Auth("", keys))), [op])) == reload(keys) + [Created(op)]
  {
    assert [op][..0] == [];
  }

  /** The reload is all it takes: the runs behave so if and only if every saved list is found again. */
  lemma SurvivorsExactly(reload: Reload)
    ensures KeepsSurvivors(reload) <==> Faithful(reload)
  {
    if KeepsSurvivors(reload) {
      var op := Op.Create("read", "", "", "", "");
      forall keys ensures reload(keys) == keys {
        CreateAppends(reload, keys, op);
        CreateAppends(ks => ks, keys, op);
        KeysAreSurvivors(ks => ks, Config(Some(Auth("", keys))), [op]);
        assert reload(keys) + [Created(op)] == keys + [Created(op)];
        assert reload(keys) == (reload(keys) + [Created(op)])[..|keys|] == keys;
      }
    } else if Faithful(reload) {
      forall file, ops ensures KeysOf(Run(reload, file, ops)) == Survivors(AllBorn(KeysOf(file), ops), ops) {
        KeysAreSurvivors(reload, file, ops);
      }
    }
  }

  /** The initial list, or the entry of the last create alone. */
  function LastCreated(keys: seq<Entry>, ops: seq<Op>): seq<Entry> {
    if ops == [] then keys
    else
      var op := ops[|ops| - 1];
      if op.Create? && ValidScope(op.scope) then [Created(op)] else LastCreated(keys, ops[..|ops| - 1])
  }

  /** When lists of tables are not found again, each create drops all earlier keys and no revoke succeeds. */
  lemma {:induction false} HiddenListKeepsTheLast(reload: Reload, file: Config, ops: seq<Op>)
    requires HidesTables(reload) && AllTokens(KeysOf(file))
    ensures var end := Run(reload, file, ops);
            && KeysOf(end) == LastCreated(KeysOf(file), ops) && AllTokens(KeysOf(end))
            && forall keyPrefix :: Command(reload, end, Revoke(keyPrefix)) == (end, false)
  {
    if ops != [] {
      var front, op := ops[..|ops| - 1], ops[|ops| - 1];
      HiddenListKeepsTheLast(reload, file, front);
      HiddenCommand(reload, Run(reload, file, front), op);
    }
    var end := Run(reload, file, ops);
    forall keyPrefix ensures Command(reload, end, Revoke(keyPrefix)) == (end, false) {
      HiddenCommand(reload, end, Revoke(keyPrefix));
    }
  }

  lemma HiddenCommand(reload: Reload, file: Config, op: Op)
    requires HidesTables(reload) && AllTokens(KeysOf(file))
    ensures var r := Command(reload, file, op);
            if op.Create? && ValidScope(op.scope) then KeysOf(r.0) == [Created(op)] else r == (file, false)
  {
    assert KeysOf(Loaded(reload, file)) == [];
  }

  /** Revoking a key just created, in full, restores the list exactly when no other key starts with it. */
  lemma RevokeUndoesCreate(reload: Reload, file: Config, op: Op)
    requires Faithful(reload) && op.Create? && ValidScope(op.scope)
    ensures KeysOf(Run(reload, file, [op, Revoke(op.key)])) == KeysOf(file) <==> !AnyMatch(KeysOf(file), op.key)
  {
    var keys, e := KeysOf(file), Created(op);
    var after := Run(reload, file, [op]);
    TwoCommands(reload, file, op, Revoke(op.key));
    assert KeysOf(after) == keys + [e];
    assert Matches((keys + [e])[|keys|], op.key);
    assert (keys + [e])[..|keys|] == keys;
    assert Remaining(keys + [e], op.key) == Remaining(keys, op.key);
    if AnyMatch(keys, op.key) {
      RemainingShorter(keys, op.key);
    } else {
      NothingMatches(keys, op.key);
    }
  }

  lemma TwoCommands(reload: Reload, file: Config, a: Op, b: Op)
    requires Faithful(reload)
    ensures Run(reload, file, [a]) == Apply(file, a).0
    ensures Run(reload, file, [a, b]) == Apply(Apply(file, a).0, b).0
  {
    assert [a][..0] == [] && [a, b][..1] == [a];
    FaithfulCommand(reload, file, a);
    FaithfulCommand(reload, Apply(file, a).0, b);
  }

  lemma {:induction false} RemainingShorter(keys: seq<Entry>, keyPrefix: string)
    ensures |Remaining(keys, keyPrefix)| <= |keys|
    ensures AnyMatch(keys, keyPrefix) ==> |Remaining(keys, keyPrefix)| < |keys|
  {
    if keys != [] {
      var front := keys[..|keys| - 1];
      RemainingShorter(front, keyPrefix);
      if AnyMatch(keys, keyPrefix) && !Matches(keys[|keys| - 1], keyPrefix) {
        var i :| 0 <= i < |keys| && Matches(keys[i], keyPrefix);
        assert Matches(front[i], keyPrefix);
      }
    }
  }

  /** What is no token survives every revoke. */
  lemma {:induction false} UnrecognisedSurvive(keys: seq<Entry>, keyPrefix: string, i: nat)
    requires i < |keys| && keys[i].Unrecognised?
    ensures keys[i] in Remaining(keys, keyPrefix)
  {
    if i < |keys| - 1 {
      UnrecognisedSurvive(keys[..|keys| - 1], keyPrefix, i);
    }
  }

  // ---- when a key is asked for ----

  function KindOf(c: Config): string {
    if c.auth.Some? then c.auth.value.kind else ""
  }

  /** The server's middleware asks for one of the keys; with an empty list it lets everyone through. */
  predicate Enforced(c: Config) {
    KindOf(c) == "perspace" && KeysOf(c) != []
  }

  /** No command takes the type back: it is the initial one, or what a create made of it. */
  lemma {:induction false} KindNeverReset(reload: Reload, file: Config, ops: seq<Op>)
    ensures var kind := KindOf(Run(reload, file, ops));
            && (kind == KindOf(file) || kind == Fixed(KindOf(file)))
            && (kind == Fixed(KindOf(file))
                || forall i :: 0 <= i < |ops| ==> !(ops[i].Create? && ValidScope(ops[i].scope)))
  {
    if ops != [] {
      var front := ops[..|ops| - 1];
      KindNeverReset(reload, file, front);
      KindAfter(reload, Run(reload, file, front), ops[|ops| - 1]);
      assert forall i :: 0 <= i < |front| ==> front[i] == ops[i];
    }
  }

  lemma KindAfter(reload: Reload, file: Config, op: Op)
    ensures KindOf(Command(reload, file, op).0)
            == if op.Create? && ValidScope(op.scope) then Fixed(KindOf(file)) else KindOf(file)
  {
  }

  lemma {:induction false} SomeSurvivor(bs: seq<Born>, ops: seq<Op>)
    ensures Survivors(bs, ops) != [] <==> exists i :: 0 <= i < |bs| && !RevokedLater(bs[i], ops)
  {
    if bs != [] {
      var front := bs[..|bs| - 1];
      SomeSurvivor(front, ops);
      assert forall i :: 0 <= i < |front| ==> front[i] == bs[i];
      if i :| 0 <= i < |bs| && !RevokedLater(bs[i], ops) {
        assert i < |front| ==> !RevokedLater(front[i], ops);
      }
    }
  }

  /**
   A create switches per-key authentication on only as long as a key is left. After any run
   with a successful create, a key is asked for if and only if the type was per-key, missing
   or "none" at the start, and some entry, initial or created, was not revoked later.
   */
  lemma EnforcedExactly(reload: Reload, file: Config, ops: seq<Op>, n: nat)
    requires Faithful(reload) && n < |ops| && ops[n].Create? && ValidScope(ops[n].scope)
    ensures var bs := AllBorn(KeysOf(file), ops);
            Enforced(Run(reload, file, ops))
            <==> (KindOf(file) == "" || KindOf(file) == "none" || KindOf(file) == "perspace")
                 && exists i :: 0 <= i < |bs| && !RevokedLater(bs[i], ops)
  {
    KindNeverReset(reload, file, ops);
    KeysAreSurvivors(reload, file, ops);
    SomeSurvivor(AllBorn(KeysOf(file), ops), ops);
  }

  /** Creating the first key and revoking it in full: the type stays per-key, and no key is asked for. */
  lemma RevokedLastKeyOpens(reload: Reload, file: Config, op: Op)
    requires Faithful(reload) && op.Create? && ValidScope(op.scope)
    requires KeysOf(file) == [] && (KindOf(file) == "" || KindOf(file) == "none" || KindOf(file) == "perspace")
    ensures Enforced(Run(reload, file, [op]))
    ensures var end := Run(reload, file, [op, Revoke(op.key)]);
            KindOf(end) == "perspace" && KeysOf(end) == [] && !Enforced(end)
  {
    TwoCommands(reload, file, op, Revoke(op.key));
    RevokeUndoesCreate(reload, file, op);
    KindNeverReset(reload, file, [op, Revoke(op.key)]);
    assert [op, Revoke(op.key)][0] == op;
  }

  // ---- what a command does, in the terms of its flags ----

  /** A create succeeds for the three scopes only; a revoke if some key it finds begins with the prefix. */
  lemma SucceedsExactly(reload: Reload, file: Config, op: Op)
    ensures op.Create? ==>
              (Command(reload, file, op).1 <==> op.scope == "read" || op.scope == "write" || op.scope == "admin")
    ensures op.Revoke? ==>
              (Command(reload, file, op).1 <==>
               file.auth.Some? && exists e, rest: string ::
                 e in reload(KeysOf(file)) && e.Token? && e.key == op.keyPrefix + rest)
    ensures !Command(reload, file, op).1 ==> Command(reload, file, op).0 == file
  {
    if op.Revoke? {
      RevokeSucceeds(reload, file, op.keyPrefix);
    }
  }

  lemma HasPrefixExactly(s: string, prefix: string)
    ensures HasPrefix(s, prefix) <==> exists rest: string :: s == prefix + rest
  {
    if HasPrefix(s, prefix) {
      assert s == prefix + s[|prefix|..];
    }
  }

  lemma RevokeSucceeds(reload: Reload, file: Config, keyPrefix: string)
    ensures Command(reload, file, Revoke(keyPrefix)).1 <==>
            file.auth.Some? && exists e, rest: string ::
              e in reload(KeysOf(file)) && e.Token? && e.key == keyPrefix + rest
  {
    var keys := KeysOf(Loaded(reload, file));
    if AnyMatch(keys, keyPrefix) {
      var i :| 0 <= i < |keys| && Matches(keys[i], keyPrefix);
      HasPrefixExactly(keys[i].key, keyPrefix);
      var rest: string :| keys[i].key == keyPrefix + rest;
      assert keys[i] in reload(KeysOf(file));
    }
    if file.auth.Some? && exists e, rest: string :: e in reload(KeysOf(file)) && e.Token? && e.key == keyPrefix + rest {
      var e, rest: string :| e in reload(KeysOf(file)) && e.Token? && e.key == keyPrefix + rest;
      var i :| 0 <= i < |keys| && keys[i] == e;
      HasPrefixExactly(e.key, keyPrefix);
      assert Matches(keys[i], keyPrefix);
    }
  }

  /** The new entry is the last one, and holds what the flags said; the actor defaults to the scope's. */
  lemma CreatedExactly(reload: Reload, file: Config, op: Op)
    requires op.Create? && (op.scope == "read" || op.scope == "write" || op.scope == "admin")
    ensures var keys := KeysOf(Command(reload, file, op).0);
            && |keys| > 0 && keys[|keys| - 1].Token?
            && var e := keys[|keys| - 1];
               && e.key == op.key && e.scope == op.scope && e.space == op.space && e.prefix == op.prefix
               && (op.actor != "" ==> e.actor == op.actor)
               && (op.actor == "" ==> e.actor == match op.scope
                                                 case "read" => "read-token"
                                                 case "write" => "write-token"
                                                 case _ => "admin-token")
  {
    assert "read" + "-token" == "read-token" && "write" + "-token" == "write-token";
    assert "admin" + "-token" == "admin-token";
  }
}
