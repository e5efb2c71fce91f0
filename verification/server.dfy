/**
 The command encoding of `ServerNode` (src/server.ts): the three HTTP write
 routes turn a request into a command string for the log, and the
 `newLogEntry` listener splits each committed command on single spaces and
 applies it to the key-value store.
 */
module Server {
  import opened Wrappers
  import KeyValueStore
  import RaftState

  const Space: char := ' '

  /** Index of the first occurrence of `c` in `s`. */
  function IndexOf(s: string, c: char): (i: nat)
    requires c in s
    ensures i < |s| && s[i] == c && c !in s[..i]
  {
    if s[0] == c then 0
    else
      assert s == [s[0]] + s[1..];
      var j := IndexOf(s[1..], c);
      assert s[..j + 1] == [s[0]] + s[1..][..j];
      1 + j
  }

  /** JavaScript's `s.split(' ')`: the pieces between single spaces, empty
      pieces included, so there is always at least one. */
  function Split(s: string): (tokens: seq<string>)
    ensures |tokens| >= 1
    ensures forall i :: 0 <= i < |tokens| ==> Space !in tokens[i]
    decreases |s|
  {
    if Space in s then
      var i := IndexOf(s, Space);
      [s[..i]] + Split(s[i + 1..])
    else
      [s]
  }

  /** The inverse of `Split`: the tokens joined by single spaces. */
  function Join(tokens: seq<string>): string
    requires |tokens| >= 1
    decreases |tokens|
  {
    if |tokens| == 1 then tokens[0] else tokens[0] + [Space] + Join(tokens[1..])
  }

  /** Splitting and joining back gives the original string. */
  lemma {:induction false} JoinSplit(s: string)
    ensures Join(Split(s)) == s
    decreases |s|
  {
    if Space in s {
      var i := IndexOf(s, Space);
      JoinSplit(s[i + 1..]);
      assert Split(s)[1..] == Split(s[i + 1..]);
      assert s == s[..i] + [Space] + s[i + 1..];
    }
  }

  /** Splitting at the first space: a space-free head comes off as one token. */
  lemma SplitCons(head: string, rest: string)
    requires Space !in head
    ensures Split(head + [Space] + rest) == [head] + Split(rest)
  {
    var s := head + [Space] + rest;
    assert s[|head|] == Space;
    assert s[..|head|] == head;
    var i := IndexOf(s, Space);
    assert i == |head|;
    assert s[i + 1..] == rest;
  }

  /** Joining space-free tokens and splitting again gives the tokens back. */
  lemma {:induction false} SplitJoin(tokens: seq<string>)
    requires |tokens| >= 1
    requires forall i :: 0 <= i < |tokens| ==> Space !in tokens[i]
    ensures Split(Join(tokens)) == tokens
    decreases |tokens|
  {
    if |tokens| > 1 {
      SplitJoin(tokens[1..]);
      SplitCons(tokens[0], Join(tokens[1..]));
      assert tokens == [tokens[0]] + tokens[1..];
    }
  }

  /** The command a route puts in the log. */
  function EncodeSet(key: string, value: string): string
  {
    "SET " + key + " " + value
  }

  function EncodeDelete(key: string): string
  {
    "DELETE " + key
  }

  const EncodedClear: string := "CLEAR"

  /** What the listener's `switch` does with a command. `Malformed` is a
      `SET` or `DELETE` lacking the key or value token, where the program would
      pass `undefined`; the routes never produce one. */
  datatype Command =
    | Set(key: string, value: string)
    | Delete(key: string)
    | Clear
    | Ignored
    | Malformed

  /** `const [action, key, value] = command.split(' ')` and the `switch`.
      Tokens past the third are dropped, so a decoded key or value never
      contains a space. */
  function Decode(command: string): (r: Command)
    ensures r.Set? ==> Space !in r.key && Space !in r.value
    ensures r.Delete? ==> Space !in r.key
  {
    var t := Split(command);
    if t[0] == "SET" then (if |t| >= 3 then Set(t[1], t[2]) else Malformed)
    else if t[0] == "DELETE" then (if |t| >= 2 then Delete(t[1]) else Malformed)
    else if t[0] == "CLEAR" then Clear
    else Ignored
  }

  /** A decoded command is what the matching route encodes for the decoded
      key and value, followed by anything at all. */
  lemma DecodeFollowsRoute(command: string)
    ensures var r := Decode(command);
      && (r.Set? ==> EncodeSet(r.key, r.value) <= command)
      && (r.Delete? ==> EncodeDelete(r.key) <= command)
      && (r.Clear? ==> EncodedClear <= command)
  {
    var t := Split(command);
    JoinSplit(command);
    if t[0] == "SET" && |t| >= 3 {
      SetPrefix(t);
    } else if t[0] == "DELETE" && |t| >= 2 {
      DeletePrefix(t);
    } else if t[0] == "CLEAR" {
      JoinHead(t);
    }
  }

  /** The first token opens the joined string. */
  lemma JoinHead(tokens: seq<string>)
    requires |tokens| >= 1
    ensures tokens[0] <= Join(tokens)
  {
    if |tokens| > 1 {
      var j := Join(tokens);
      assert j[..|tokens[0]|] == tokens[0];
    }
  }

  /** A prefix stays a prefix behind a common head. */
  lemma PrefixBehind(p: string, a: string, b: string)
    requires a <= b
    ensures p + a <= p + b
  {
    assert (p + b)[..|p + a|] == p + a;
  }

  /** Tokens `SET`, key, value, ... join to a string opening with the SET command. */
  lemma SetPrefix(t: seq<string>)
    requires |t| >= 3 && t[0] == "SET"
    ensures EncodeSet(t[1], t[2]) <= Join(t)
  {
    JoinThree(t);
    JoinHead(t[2..]);
    PrefixBehind(t[0] + [Space] + t[1] + [Space], t[2], Join(t[2..]));
    EncodeSetSpelled(t[1], t[2]);
  }

  /** Joining at least three tokens, unfolded twice. */
  lemma JoinThree(t: seq<string>)
    requires |t| >= 3
    ensures Join(t) == t[0] + [Space] + t[1] + [Space] + Join(t[2..])
  {
    assert t[1..][1..] == t[2..];
    JoinCons(t[1], t[2..]);
    assert [t[1]] + t[2..] == t[1..];
  }

  /** The SET command spelled with `Space`. */
  lemma EncodeSetSpelled(key: string, value: string)
    ensures EncodeSet(key, value) == "SET" + [Space] + key + [Space] + value
  {
    assert "SET " == "SET" + [Space];
  }

  /** Tokens `DELETE`, key, ... join to a string opening with the DELETE command. */
  lemma DeletePrefix(t: seq<string>)
    requires |t| >= 2 && t[0] == "DELETE"
    ensures EncodeDelete(t[1]) <= Join(t)
  {
    var rest := t[1..];
    JoinHead(rest);
    var p := "DELETE" + [Space];
    assert Join(t) == p + Join(rest);
    PrefixBehind(p, t[1], Join(rest));
    assert EncodeDelete(t[1]) == p + t[1];
  }

  /** The `newLogEntry` listener: apply one committed entry to the store. */
  function OnNewLogEntry(store: KeyValueStore.Store, entry: RaftState.Entry): (r: KeyValueStore.Store)
    ensures var t := Split(entry.command);
      && (t[0] == "SET" && |t| >= 3 ==>
            && KeyValueStore.Get(r, t[1]) == Some(t[2])
            && forall k :: k != t[1] ==> KeyValueStore.Get(r, k) == KeyValueStore.Get(store, k))
      && (t[0] == "DELETE" && |t| >= 2 ==>
            && KeyValueStore.Get(r, t[1]) == None
            && forall k :: k != t[1] ==> KeyValueStore.Get(r, k) == KeyValueStore.Get(store, k))
      && (t[0] == "CLEAR" ==> forall k :: KeyValueStore.Get(r, k) == None)
      && (t[0] != "SET" && t[0] != "DELETE" && t[0] != "CLEAR" ==> r == store)
  {
    match Decode(entry.command)
    case Set(k, v) => KeyValueStore.Set(store, k, v)
    case Delete(k) => KeyValueStore.Delete(store, k).0
    case Clear => KeyValueStore.Clear(store)
    case Ignored => store
    case Malformed => store
  }

  /** The store after the sink has received `entries`, in order. */
  function ApplyAll(store: KeyValueStore.Store, entries: seq<RaftState.Entry>): KeyValueStore.Store
    decreases |entries|
  {
    if entries == [] then store else ApplyAll(OnNewLogEntry(store, entries[0]), entries[1..])
  }

  /** Applying two batches one after the other is applying their concatenation. */
  lemma {:induction false} ApplyAllConcat(store: KeyValueStore.Store, first: seq<RaftState.Entry>, second: seq<RaftState.Entry>)
    ensures ApplyAll(store, first + second) == ApplyAll(ApplyAll(store, first), second)
    decreases |first|
  {
    if first == [] {
      assert first + second == second;
    } else {
      assert (first + second)[1..] == first[1..] + second;
      ApplyAllConcat(OnNewLogEntry(store, first[0]), first[1..], second);
    }
  }

  /** A key and value without spaces survive the PUT route's encoding. */
  lemma SetRoundTrip(key: string, value: string)
    requires Space !in key && Space !in value
    ensures Decode(EncodeSet(key, value)) == Set(key, value)
  {
    SetValueTruncated(key, value);
  }

  /** A key without spaces survives the DELETE route's encoding. */
  lemma DeleteRoundTrip(key: string)
    requires Space !in key
    ensures Decode(EncodeDelete(key)) == Delete(key)
  {
    assert ["DELETE", key][1..] == [key];
    assert EncodeDelete(key) == Join(["DELETE", key]);
    SplitJoin(["DELETE", key]);
  }

  lemma ClearRoundTrip()
    ensures Decode(EncodedClear) == Clear
  {
    assert Space !in EncodedClear;
  }

  /** A value containing spaces is cut at its first space: only the first
      word is stored. */
  lemma SetValueTruncated(key: string, value: string)
    requires Space !in key
    ensures Decode(EncodeSet(key, value)) == Set(key, Split(value)[0])
  {
    var vs := Split(value);
    var tokens := ["SET", key] + vs;
    assert Join(tokens) == EncodeSet(key, value) by {
      JoinSplit(value);
      JoinCons(key, vs);
      assert ["SET", key] + vs == ["SET"] + ([key] + vs);
      JoinCons("SET", [key] + vs);
    }
    assert forall i :: 0 <= i < |tokens| ==> Space !in tokens[i];
    SplitJoin(tokens);
  }

  /** Joining a token in front of at least one more. */
  lemma JoinCons(head: string, rest: seq<string>)
    requires |rest| >= 1
    ensures Join([head] + rest) == head + [Space] + Join(rest)
  {
    assert ([head] + rest)[1..] == rest;
  }

  /** After a committed PUT the key reads back the value. */
  lemma SetThenGet(store: KeyValueStore.Store, term: int, key: string, value: string)
    requires Space !in key && Space !in value
    ensures KeyValueStore.Get(ApplyAll(store, [RaftState.Entry(term, EncodeSet(key, value))]), key) == Some(value)
  {
    SetRoundTrip(key, value);
  }
}
