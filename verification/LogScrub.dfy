/** The log scrubber: which paths of a log value survive it. */
module LogScrub {
  import opened Text

  /** A log value. A dict is its items in insertion order. */
  datatype Value =
    | Scalar(text: string)
    | List(items: seq<Value>)
    | Tuple(items: seq<Value>)
    | Dict(fields: seq<Field>)

  datatype Field = Field(key: string, value: Value)

  const REDACT_KEYS := ["secret", "token", "password", "ssh_key", "sshkey"]

  function LowerChar(c: char): char {
    if 'A' <= c <= 'Z' then c - 'A' + 'a' else c
  }

  function Lower(s: string): string {
    seq(|s|, i requires 0 <= i < |s| => LowerChar(s[i]))
  }

  /** A redact word occurs in the key, whatever the case of its letters. */
  predicate Redacted(key: string) {
    exists i | 0 <= i < |REDACT_KEYS| :: Contains(Lower(key), REDACT_KEYS[i])
  }

  /** The same letter, be it small or capital. */
  predicate SameLetter(c: char, small: char) {
    c == small || ('a' <= small <= 'z' && c as int == small as int - 32)
  }

  ghost predicate SpeltAt(key: string, word: string, i: nat) {
    i + |word| <= |key| && forall j | 0 <= j < |word| :: SameLetter(key[i + j], word[j])
  }

  lemma {:induction false} ContainsSmall(key: string, word: string)
    requires forall j | 0 <= j < |word| :: !('A' <= word[j] <= 'Z')
    ensures Contains(Lower(key), word) <==> exists i :: SpeltAt(key, word, i)
  {
    var low := Lower(key);
    forall i: nat | i + |word| <= |key| ensures StartsWith(low[i..], word) <==> SpeltAt(key, word, i) {
      assert forall j | 0 <= j < |word| :: low[i..][j] == LowerChar(key[i + j]);
      assert forall j | 0 <= j < |word| :: LowerChar(key[i + j]) == word[j] <==> SameLetter(key[i + j], word[j]);
      if forall j | 0 <= j < |word| :: low[i..][j] == word[j] { assert low[i..][..|word|] == word; }
    }
    if i: nat :| SpeltAt(key, word, i) { assert StartsWith(low[i..], word); }
  }

  lemma {:induction false} SmallWords()
    ensures forall i, j | 0 <= i < |REDACT_KEYS| && 0 <= j < |REDACT_KEYS[i]| :: !('A' <= REDACT_KEYS[i][j] <= 'Z')
    ensures forall word :: word in REDACT_KEYS <==> word in {"secret", "token", "password", "ssh_key", "sshkey"}
  {
  }

  /** A key is redacted if and only if one of five words is spelt somewhere in it, in
      small or capital letters. */
  lemma {:induction false} RedactedExactly(key: string)
    ensures Redacted(key) <==>
            exists word, i :: word in {"secret", "token", "password", "ssh_key", "sshkey"} && SpeltAt(key, word, i)
  {
    SmallWords();
    hide REDACT_KEYS, Lower, Contains, SpeltAt;
    forall k | 0 <= k < |REDACT_KEYS| { ContainsSmall(key, REDACT_KEYS[k]); }
    if word, i :| word in {"secret", "token", "password", "ssh_key", "sshkey"} && SpeltAt(key, word, i) {
      assert word in REDACT_KEYS;
      var k :| 0 <= k < |REDACT_KEYS| && REDACT_KEYS[k] == word;
      ContainsSmall(key, REDACT_KEYS[k]);
    }
    if Redacted(key) {
      var k :| 0 <= k < |REDACT_KEYS| && Contains(Lower(key), REDACT_KEYS[k]);
      var i :| SpeltAt(key, REDACT_KEYS[k], i);
      assert REDACT_KEYS[k] in REDACT_KEYS;
    }
  }

  // ----- the scrubber -----

  function Scrub(v: Value): Value
    decreases v
  {
    match v
    case Dict(fields) => Dict(ScrubFields(fields))
    case List(items) => List(seq(|items|, i requires 0 <= i < |items| => Scrub(items[i])))
    case _ => v
  }

  function ScrubFields(fields: seq<Field>): seq<Field>
    decreases fields
  {
    if fields == [] then []
    else
      var rest := ScrubFields(fields[1..]);
      if Redacted(fields[0].key) then rest else [Field(fields[0].key, Scrub(fields[0].value))] + rest
  }

  /** `_scrub`: the dict and the list are built item by item. */
  method ScrubValue(v: Value) returns (r: Value)
    ensures r == Scrub(v)
    decreases v
  {
    hide Redacted;
    match v
    case Dict(fields) =>
      var kept := [];
      for i := 0 to |fields|
        invariant ScrubFields(fields) == kept + ScrubFields(fields[i..])
      {
        assert fields[i..][1..] == fields[i + 1..];
        if !Redacted(fields[i].key) {
          var value := ScrubValue(fields[i].value);
          kept := kept + [Field(fields[i].key, value)];
        }
      }
      r := Dict(kept);
    case List(items) =>
      var out := [];
      for i := 0 to |items|
        invariant |out| == i && forall j | 0 <= j < i :: out[j] == Scrub(items[j])
      {
        var value := ScrubValue(items[i]);
        out := out + [value];
      }
      r := List(out);
      assert out == Scrub(v).items;
    case _ => r := v;
  }

  // ----- paths -----

  datatype Step = Key(key: string) | Index(i: nat)

  type Path = seq<Step>

  function Lookup(fields: seq<Field>, key: string): Option<Value>
  {
    if fields == [] then None
    else if fields[0].key == key then Some(fields[0].value)
    else Lookup(fields[1..], key)
  }

  /** One step down. */
  function Child(v: Value, s: Step): Option<Value>
  {
    match v
    case Dict(fields) => if s.Key? then Lookup(fields, s.key) else None
    case List(items) => if s.Index? && s.i < |items| then Some(items[s.i]) else None
    case Tuple(items) => if s.Index? && s.i < |items| then Some(items[s.i]) else None
    case Scalar(_) => None
  }

  function Get(v: Value, p: Path): Option<Value>
    decreases |p|
  {
    if p == [] then Some(v)
    else match Child(v, p[0])
      case None => None
      case Some(w) => Get(w, p[1..])
  }

  predicate CleanPath(p: Path) {
    forall i | 0 <= i < |p| :: p[i].Key? ==> !Redacted(p[i].key)
  }

  /** The part of a path the scrubber walks: up to the first value that is neither
      a dict nor a list. */
  function Walked(v: Value, p: Path): (n: nat)
    ensures n <= |p|
    decreases |p|
  {
    if p == [] || v.Tuple? then 0
    else match Child(v, p[0])
      case None => 1
      case Some(w) => 1 + Walked(w, p[1..])
  }

  lemma {:induction false} LookupScrubbed(fields: seq<Field>, key: string)
    ensures Lookup(ScrubFields(fields), key) ==
            if Redacted(key) then None
            else match Lookup(fields, key) case None => None case Some(w) => Some(Scrub(w))
    decreases |fields|
  {
    hide Redacted;
    if fields != [] {
      LookupScrubbed(fields[1..], key);
      var rest := ScrubFields(fields[1..]);
      if !Redacted(fields[0].key) {
        var first := Field(fields[0].key, Scrub(fields[0].value));
        assert ScrubFields(fields) == [first] + rest && ([first] + rest)[1..] == rest;
      }
    }
  }

  lemma {:induction false} ChildScrubbed(v: Value, s: Step)
    requires !v.Tuple?
    ensures Child(Scrub(v), s) ==
            if s.Key? && Redacted(s.key) then None
            else match Child(v, s) case None => None case Some(w) => Some(Scrub(w))
  {
    hide Redacted;
    if v.Dict? && s.Key? { LookupScrubbed(v.fields, s.key); }
  }

  /** Exactly the paths whose walked part is clean survive, and what is at their end
      is the scrubbed value, or inside a tuple the value itself. In particular a
      scalar on a clean path keeps its text and its place. */
  lemma {:induction false} ScrubbedAt(v: Value, p: Path)
    ensures Get(Scrub(v), p) ==
            if !CleanPath(p[..Walked(v, p)]) then None
            else match Get(v, p)
              case None => None
              case Some(w) => Some(if ThroughTuple(v, p) then w else Scrub(w))
    decreases |p|
  {
    hide Redacted;
    if p != [] && !v.Tuple? {
      ChildScrubbed(v, p[0]);
      match Child(v, p[0])
      case None =>
        assert p[..1] == [p[0]];
      case Some(w) =>
        var n := Walked(w, p[1..]);
        ScrubbedAt(w, p[1..]);
        assert p[..1 + n] == [p[0]] + p[1..][..n];
        CleanCons(p[0], p[1..][..n]);
    }
  }

  lemma {:induction false} CleanCons(s: Step, p: Path)
    ensures CleanPath([s] + p) <==> (s.Key? ==> !Redacted(s.key)) && CleanPath(p)
  {
    hide Redacted;
    assert ([s] + p)[0] == s;
    assert forall i | 0 <= i < |p| :: ([s] + p)[i + 1] == p[i];
  }

  /** Some value before the end of the path is a tuple. */
  predicate ThroughTuple(v: Value, p: Path)
    decreases |p|
  {
    p != [] && (v.Tuple? || match Child(v, p[0]) case None => false case Some(w) => ThroughTuple(w, p[1..]))
  }

  // ----- no secret key is left -----

  /** No key anywhere in the value holds a redact word. */
  ghost predicate SecretFree(v: Value) {
    forall p :: Get(v, p).Some? ==> CleanPath(p)
  }

  /** The tuples the scrubber comes to hold no such key either. */
  ghost predicate TuplesSecretFree(v: Value) {
    forall p :: CleanPath(p) && Get(v, p).Some? && Get(v, p).value.Tuple? ==> SecretFree(Get(v, p).value)
  }

  lemma {:induction false} GetConcat(v: Value, p: Path, q: Path)
    requires Get(v, p).Some?
    ensures Get(v, p + q) == Get(Get(v, p).value, q)
    decreases |p|
  {
    if p == [] {
      assert p + q == q;
    } else {
      assert (p + q)[1..] == p[1..] + q;
      GetConcat(Child(v, p[0]).value, p[1..], q);
    }
  }

  lemma {:induction false} WalkedToTuple(v: Value, p: Path, q: Path)
    requires Get(v, p).Some? && Get(v, p).value.Tuple?
    ensures Walked(v, p + q) <= |p|
    decreases |p|
  {
    if p == [] {
      assert p + q == q;
    } else {
      assert (p + q)[1..] == p[1..] + q;
      WalkedToTuple(Child(v, p[0]).value, p[1..], q);
    }
  }

  lemma {:induction false} WalkedStops(v: Value, p: Path)
    requires Get(v, p).Some? && Walked(v, p) < |p|
    ensures Get(v, p[..Walked(v, p)]).Some? && Get(v, p[..Walked(v, p)]).value.Tuple?
    decreases |p|
  {
    if !v.Tuple? {
      var n := Walked(v, p);
      WalkedStops(Child(v, p[0]).value, p[1..]);
      assert p[..n][1..] == p[1..][..n - 1];
    }
  }

  lemma {:induction false} CleanConcat(p: Path, q: Path)
    ensures CleanPath(p + q) <==> CleanPath(p) && CleanPath(q)
  {
    hide Redacted;
    assert forall i | 0 <= i < |q| :: (p + q)[|p| + i] == q[i];
    assert forall i | 0 <= i < |p| :: (p + q)[i] == p[i];
  }

  /** Scrubbing leaves no secret-named key at any depth, for every value without
      tuples; with tuples exactly when none that it comes to holds such a key, for
      it does not look inside them. */
  lemma {:induction false} SecretFreeExactly(v: Value)
    ensures SecretFree(Scrub(v)) <==> TuplesSecretFree(v)
  {
    hide CleanPath, Get, Walked, Scrub, ThroughTuple;
    if SecretFree(Scrub(v)) {
      forall p | CleanPath(p) && Get(v, p).Some? && Get(v, p).value.Tuple?
        ensures SecretFree(Get(v, p).value)
      {
        forall q | Get(Get(v, p).value, q).Some? ensures CleanPath(q) {
          var n := Walked(v, p + q);
          GetConcat(v, p, q);
          WalkedToTuple(v, p, q);
          assert p[..n] + p[n..] == p && (p + q)[..n] == p[..n];
          CleanConcat(p[..n], p[n..]);
          ScrubbedAt(v, p + q);
          CleanConcat(p, q);
        }
      }
    }
    if TuplesSecretFree(v) {
      forall p | Get(Scrub(v), p).Some? ensures CleanPath(p) {
        var n := Walked(v, p);
        ScrubbedAt(v, p);
        assert p[..n] + p[n..] == p;
        CleanConcat(p[..n], p[n..]);
        if n < |p| {
          WalkedStops(v, p);
          GetConcat(v, p[..n], p[n..]);
          assert SecretFree(Get(v, p[..n]).value);
        } else {
          assert p[..n] == p;
        }
      }
    }
  }

  predicate TupleFree(v: Value)
    decreases v
  {
    match v
    case Scalar(_) => true
    case Tuple(_) => false
    case List(items) => forall i | 0 <= i < |items| :: TupleFree(items[i])
    case Dict(fields) => forall i | 0 <= i < |fields| :: TupleFree(fields[i].value)
  }

  lemma {:induction false} TupleFreeGet(v: Value, p: Path)
    requires TupleFree(v) && Get(v, p).Some?
    ensures !Get(v, p).value.Tuple?
    decreases |p|
  {
    if p != [] {
      if v.Dict? { LookupIn(v.fields, p[0].key); }
      TupleFreeGet(Child(v, p[0]).value, p[1..]);
    }
  }

  lemma {:induction false} LookupIn(fields: seq<Field>, key: string)
    requires Lookup(fields, key).Some?
    ensures exists i | 0 <= i < |fields| :: fields[i] == Field(key, Lookup(fields, key).value)
    decreases |fields|
  {
    if fields[0].key != key {
      LookupIn(fields[1..], key);
      var i :| 0 <= i < |fields[1..]| && fields[1..][i] == Field(key, Lookup(fields[1..], key).value);
      assert fields[i + 1] == Field(key, Lookup(fields, key).value);
    } else {
      assert fields[0] == Field(key, Lookup(fields, key).value);
    }
  }

  lemma {:induction false} ScrubLeavesNoSecret(v: Value)
    requires TupleFree(v)
    ensures SecretFree(Scrub(v))
  {
    forall p | Get(v, p).Some? ensures !Get(v, p).value.Tuple? { TupleFreeGet(v, p); }
    hide CleanPath, Get, Scrub, TupleFree;
    SecretFreeExactly(v);
  }

  /** A dict inside a tuple keeps its token. */
  lemma {:induction false} TupleKeepsToken()
    ensures var v := Tuple([Dict([Field("token", Scalar("t"))])]);
      Scrub(v) == v && !SecretFree(v)
  {
    var v := Tuple([Dict([Field("token", Scalar("t"))])]);
    var p := [Index(0), Key("token")];
    assert Redacted("token") by {
      assert StartsWith(Lower("token")[0..], REDACT_KEYS[1]);
    }
    assert p[1..] == [Key("token")] && [Key("token")][1..] == [];
    assert Child(v, p[0]) == Some(Dict([Field("token", Scalar("t"))]));
    assert Get(v, p).Some? && p[1].Key? && Redacted(p[1].key);
  }

  /** Scrubbing again changes nothing. */
  lemma {:induction false} ScrubTwice(v: Value)
    ensures Scrub(Scrub(v)) == Scrub(v)
    decreases v
  {
    match v
    case Dict(fields) => ScrubFieldsTwice(fields);
    case List(items) =>
      forall i | 0 <= i < |items| ensures Scrub(Scrub(items[i])) == Scrub(items[i]) { ScrubTwice(items[i]); }
      assert Scrub(Scrub(v)).items == Scrub(v).items;
    case _ =>
  }

  lemma {:induction false} ScrubFieldsTwice(fields: seq<Field>)
    ensures ScrubFields(ScrubFields(fields)) == ScrubFields(fields)
    decreases fields
  {
    hide Redacted;
    if fields != [] {
      ScrubFieldsTwice(fields[1..]);
      ScrubTwice(fields[0].value);
      var rest := ScrubFields(fields[1..]);
      if !Redacted(fields[0].key) {
        var first := Field(fields[0].key, Scrub(fields[0].value));
        assert ScrubFields(fields) == [first] + rest && ([first] + rest)[1..] == rest;
      }
    }
  }
}
