/**
 * The transcription request parameters (main.py:329-344): defaults, then each
 * `--param k=v` in order, refusing any that would turn `diarize` or
 * `punctuate` off; and their rendering as a URL query string (main.py:102).
 */
module Params {
  import opened Wrappers
  import Text

  /** An insertion-ordered dictionary, as a Python `dict` is. */
  type Dict = seq<(string, string)>

  predicate UniqueKeys(d: Dict) {
    forall i, j :: 0 <= i < j < |d| ==> d[i].0 != d[j].0
  }

  function KeySet(d: Dict): set<string> {
    set i | 0 <= i < |d| :: d[i].0
  }

  lemma KeySetFirst(d: Dict)
    requires |d| > 0
    ensures KeySet(d) == {d[0].0} + KeySet(d[1..])
  {
    assert forall i :: 1 <= i < |d| ==> d[i] == d[1..][i - 1];
  }

  /** `d.get(k)`. */
  function Get(d: Dict, k: string): (r: Option<string>)
    ensures r.None? <==> k !in KeySet(d)
    ensures r.Some? ==> exists i :: 0 <= i < |d| && d[i] == (k, r.value)
    decreases |d|
  {
    if |d| == 0 then None
    else
      KeySetFirst(d);
      if d[0].0 == k then Some(d[0].1)
      else Get(d[1..], k)
  }

  /** `d[k] = v`: an existing key keeps its place, a new key goes last. */
  function Put(d: Dict, k: string, v: string): (r: Dict)
    ensures KeySet(r) == KeySet(d) + {k}
    ensures k in KeySet(d) ==> |r| == |d| && forall i :: 0 <= i < |d| ==> r[i].0 == d[i].0
    ensures k !in KeySet(d) ==> r == d + [(k, v)]
    decreases |d|
  {
    if |d| == 0 then
      KeySetFirst([(k, v)]);
      [(k, v)]
    else
      KeySetFirst(d);
      if d[0].0 == k then
        var r := [(k, v)] + d[1..];
        KeySetFirst(r);
        assert r[1..] == d[1..];
        r
      else
        var rest := Put(d[1..], k, v);
        var r := [d[0]] + rest;
        assert r[1..] == rest;
        KeySetFirst(r);
        r
  }

  /** `d[k] = v` keeps the keys distinct. */
  lemma PutKeepsKeysUnique(d: Dict, k: string, v: string)
    ensures UniqueKeys(d) ==> UniqueKeys(Put(d, k, v))
  {
    if UniqueKeys(d) && k !in KeySet(d) {
      var r := Put(d, k, v);
      assert forall i :: 0 <= i < |d| ==> r[i].0 in KeySet(d);
    }
  }

  /** After `d[k] = v`, `k` reads `v` and every other key reads as before. */
  lemma {:induction false} PutGet(d: Dict, k: string, v: string, k': string)
    ensures Get(Put(d, k, v), k') == if k' == k then Some(v) else Get(d, k')
    decreases |d|
  {
    if |d| > 0 && d[0].0 != k {
      var r := Put(d, k, v);
      assert r[1..] == Put(d[1..], k, v);
      PutGet(d[1..], k, v, k');
    }
  }

  /** The parameters sent when no `--param` is given. */
  function Defaults(language: string): (d: Dict)
    ensures UniqueKeys(d)
  {
    [ ("language", language), ("model", "general"), ("punctuate", "true"),
      ("diarize", "true"), ("utterances", "false"), ("alternatives", "1") ]
  }

  /** Why a `--param` is refused. */
  datatype ParamError =
    | Malformed(param: string)    // `[k, v] = param.split("=")` does not unpack
    | DiarizeOff(value: string)   // diarize set to something other than true
    | PunctuateOff(value: string) // punctuate set to something other than true

  /** `[k, v] = param.split("=")`: defined when the text has exactly one '='. */
  function ParseOverride(param: string): (r: Option<(string, string)>)
    ensures r.Some? <==> multiset(param)['='] == 1
    ensures r.Some? ==> r.value.0 + "=" + r.value.1 == param
    ensures r.Some? ==> '=' !in r.value.0 && '=' !in r.value.1
  {
    var parts := Text.Split(param, '=');
    if |parts| == 2 then
      Text.JoinSplit(param, '=');
      assert Text.Join(parts, '=') == parts[0] + "=" + parts[1];
      Some((parts[0], parts[1]))
    else None
  }

  /** The error a `--param` is refused with, if any. */
  function Refusal(param: string): (r: Option<ParamError>)
    ensures r.None? <==>
      && ParseOverride(param).Some?
      && (ParseOverride(param).value.0 == "diarize" ==> Text.Lower(ParseOverride(param).value.1) == "true")
      && (ParseOverride(param).value.0 == "punctuate" ==> Text.Lower(ParseOverride(param).value.1) == "true")
  {
    match ParseOverride(param)
    case None => Some(Malformed(param))
    case Some((k, v)) =>
      if k == "diarize" && Text.Lower(v) != "true" then Some(DiarizeOff(v))
      else if k == "punctuate" && Text.Lower(v) != "true" then Some(PunctuateOff(v))
      else None
  }

  predicate Accepted(param: string) {
    Refusal(param).None?
  }

  /** The `--param` loop: apply each override in order, stopping at the first refused one. */
  function ApplyOverrides(d: Dict, overrides: seq<string>): (r: Result<Dict, ParamError>)
    ensures r.Success? <==> forall i :: 0 <= i < |overrides| ==> Accepted(overrides[i])
    decreases |overrides|
  {
    if |overrides| == 0 then Success(d)
    else if !Accepted(overrides[0]) then Failure(Refusal(overrides[0]).value)
    else
      var kv := ParseOverride(overrides[0]).value;
      AllAcceptedTail(overrides);
      ApplyOverrides(Put(d, kv.0, kv.1), overrides[1..])
  }

  /** Every override is accepted when the first one and all the rest are. */
  lemma AllAcceptedTail(overrides: seq<string>)
    requires |overrides| > 0
    ensures (forall i :: 0 <= i < |overrides| ==> Accepted(overrides[i]))
        <==> Accepted(overrides[0]) && forall i :: 0 <= i < |overrides[1..]| ==> Accepted(overrides[1..][i])
  {
    assert forall i :: 1 <= i < |overrides| ==> overrides[i] == overrides[1..][i - 1];
  }

  /** The keys of a dictionary, in insertion order. */
  function Keys(d: Dict): (ks: seq<string>)
    ensures |ks| == |d|
    ensures forall i :: 0 <= i < |d| ==> ks[i] == d[i].0
  {
    seq(|d|, i requires 0 <= i < |d| => d[i].0)
  }

  /**
   * The keys the overrides name that are not in `known`, each once, in the
   * order they are first named.
   */
  function NewKeys(known: set<string>, overrides: seq<string>): seq<string>
    decreases |overrides|
  {
    if |overrides| == 0 then []
    else
      var first := ParseOverride(overrides[0]);
      if first.Some? && first.value.0 !in known then
        [first.value.0] + NewKeys(known + {first.value.0}, overrides[1..])
      else NewKeys(known, overrides[1..])
  }

  /**
   * A completed loop keeps the keys it started with, in their places, and
   * after them adds the keys it did not have, in the order the overrides
   * first name them; no key appears twice.
   */
  lemma OverridesKeepKeys(d: Dict, overrides: seq<string>)
    requires ApplyOverrides(d, overrides).Success?
    ensures var r := ApplyOverrides(d, overrides).value;
      && |d| <= |r|
      && (forall i :: 0 <= i < |d| ==> r[i].0 == d[i].0)
      && Keys(r[|d|..]) == NewKeys(KeySet(d), overrides)
      && (UniqueKeys(d) ==> UniqueKeys(r))
  {
    OverridesKeepOldKeys(d, overrides);
    OverridesAddNewKeys(d, overrides);
  }

  /** The starting keys stay in their places, and no key is duplicated. */
  lemma {:induction false} OverridesKeepOldKeys(d: Dict, overrides: seq<string>)
    requires ApplyOverrides(d, overrides).Success?
    ensures var r := ApplyOverrides(d, overrides).value;
      && |d| <= |r|
      && (forall i :: 0 <= i < |d| ==> r[i].0 == d[i].0)
      && (UniqueKeys(d) ==> UniqueKeys(r))
    decreases |overrides|
  {
    if |overrides| > 0 {
      var kv := ParseOverride(overrides[0]).value;
      ApplyAccepted(d, overrides);
      PutKeepsKeysUnique(d, kv.0, kv.1);
      OverridesKeepOldKeys(Put(d, kv.0, kv.1), overrides[1..]);
    }
  }

  /** The keys after the starting ones are the new keys, in first-mention order. */
  lemma {:induction false} OverridesAddNewKeys(d: Dict, overrides: seq<string>)
    requires ApplyOverrides(d, overrides).Success?
    ensures |d| <= |ApplyOverrides(d, overrides).value|
    ensures Keys(ApplyOverrides(d, overrides).value[|d|..]) == NewKeys(KeySet(d), overrides)
    decreases |overrides|
  {
    OverridesKeepOldKeys(d, overrides);
    if |overrides| > 0 {
      var kv := ParseOverride(overrides[0]).value;
      var d' := Put(d, kv.0, kv.1);
      ApplyAccepted(d, overrides);
      OverridesAddNewKeys(d', overrides[1..]);
      if kv.0 in KeySet(d) {
        assert KeySet(d') == KeySet(d);
      } else {
        OverridesKeepOldKeys(d', overrides[1..]);
        NewKeyStep(d, d', ApplyOverrides(d, overrides).value, kv.0);
      }
    } else {
      assert Keys(d[|d|..]) == [];
    }
  }

  /** A key new to `d` is the first key after `d`'s own in the completed loop. */
  lemma NewKeyStep(d: Dict, d': Dict, r: Dict, k: string)
    requires |d'| == |d| + 1 && d'[|d|].0 == k
    requires |d'| <= |r| && forall i :: 0 <= i < |d'| ==> r[i].0 == d'[i].0
    ensures Keys(r[|d|..]) == [k] + Keys(r[|d'|..])
  {
    assert r[|d|..][0].0 == k;
    assert r[|d|..][1..] == r[|d'|..];
  }

  /** A refused loop reports the error of the first refused override. */
  lemma {:induction false} FirstRefusalReported(d: Dict, overrides: seq<string>, i: nat)
    requires i < |overrides| && !Accepted(overrides[i])
    requires forall j :: 0 <= j < i ==> Accepted(overrides[j])
    ensures ApplyOverrides(d, overrides) == Failure(Refusal(overrides[i]).value)
    decreases i
  {
    if i > 0 {
      var kv := ParseOverride(overrides[0]).value;
      var rest := overrides[1..];
      assert rest[i - 1] == overrides[i];
      forall j | 0 <= j < i - 1
        ensures Accepted(rest[j])
      {
        assert rest[j] == overrides[j + 1];
      }
      FirstRefusalReported(Put(d, kv.0, kv.1), rest, i - 1);
      ApplyAccepted(d, overrides);
    } else {
      ApplyRefused(d, overrides);
    }
  }

  /** A refused first override ends the loop with its error. */
  lemma ApplyRefused(d: Dict, overrides: seq<string>)
    requires |overrides| > 0 && !Accepted(overrides[0])
    ensures ApplyOverrides(d, overrides) == Failure(Refusal(overrides[0]).value)
  {
  }

  /** An accepted first override is applied, and the loop goes on with the rest. */
  lemma ApplyAccepted(d: Dict, overrides: seq<string>)
    requires |overrides| > 0 && Accepted(overrides[0])
    ensures
      var kv := ParseOverride(overrides[0]).value;
      ApplyOverrides(d, overrides) == ApplyOverrides(Put(d, kv.0, kv.1), overrides[1..])
  {
  }

  /** The parameters of the transcription request for a source language and the `--param` list. */
  function RequestParams(language: string, overrides: seq<string>): (r: Result<Dict, ParamError>)
    ensures r.Success? <==> forall i :: 0 <= i < |overrides| ==> Accepted(overrides[i])
    ensures r.Success? ==>
      && UniqueKeys(r.value)
      && |Defaults(language)| <= |r.value|
      && Keys(r.value[..|Defaults(language)|]) == Keys(Defaults(language))
      && Keys(r.value[|Defaults(language)|..]) == NewKeys(KeySet(Defaults(language)), overrides)
  {
    var d := Defaults(language);
    var r := ApplyOverrides(d, overrides);
    if r.Success? then
      OverridesKeepKeys(d, overrides);
      r
    else r
  }

  /** The value the last override naming `k` gives it, or `current` when none names it. */
  function LastSetting(overrides: seq<string>, k: string, current: Option<string>): Option<string>
    decreases |overrides|
  {
    if |overrides| == 0 then current
    else
      var last := ParseOverride(overrides[|overrides| - 1]);
      if last.Some? && last.value.0 == k then Some(last.value.1)
      else LastSetting(overrides[..|overrides| - 1], k, current)
  }

  /** Peeling the first override off: it sets the starting value for the rest. */
  lemma {:induction false} LastSettingFirst(overrides: seq<string>, k: string, current: Option<string>)
    requires |overrides| > 0
    ensures
      var first := ParseOverride(overrides[0]);
      LastSetting(overrides, k, current)
        == LastSetting(overrides[1..], k, if first.Some? && first.value.0 == k then Some(first.value.1) else current)
    decreases |overrides|
  {
    if |overrides| > 1 {
      var init := overrides[..|overrides| - 1];
      assert init[0] == overrides[0];
      assert init[1..] == overrides[1..][..|overrides| - 2];
      LastSettingFirst(init, k, current);
    }
  }

  /** After a successful loop every key holds its last override's value, or else its default. */
  lemma {:induction false} LastOverrideWins(d: Dict, overrides: seq<string>, k: string)
    requires ApplyOverrides(d, overrides).Success?
    ensures Get(ApplyOverrides(d, overrides).value, k) == LastSetting(overrides, k, Get(d, k))
    decreases |overrides|
  {
    if |overrides| > 0 {
      var kv := ParseOverride(overrides[0]).value;
      LastOverrideWins(Put(d, kv.0, kv.1), overrides[1..], k);
      PutGet(d, kv.0, kv.1, k);
      LastSettingFirst(overrides, k, Get(d, k));
    }
  }

  /** Override `param` sets `k` to `v`. */
  predicate SetsTo(param: string, k: string, v: string) {
    ParseOverride(param) == Some((k, v))
  }

  /** A value `LastSetting` reports either is `current` or is set by one of the overrides. */
  lemma {:induction false} LastSettingSource(overrides: seq<string>, k: string, current: Option<string>)
    ensures
      var final := LastSetting(overrides, k, current);
      final == current || (final.Some? && exists i :: 0 <= i < |overrides| && SetsTo(overrides[i], k, final.value))
    decreases |overrides|
  {
    if |overrides| > 0 {
      var n := |overrides| - 1;
      var init := overrides[..n];
      var last := ParseOverride(overrides[n]);
      if last.Some? && last.value.0 == k {
        assert SetsTo(overrides[n], k, last.value.1);
      } else {
        LastSettingSource(init, k, current);
        var final := LastSetting(init, k, current);
        if final != current {
          var i :| 0 <= i < |init| && SetsTo(init[i], k, final.value);
          assert overrides[i] == init[i];
        }
      }
    }
  }

  /** If the loop completes, `diarize` and `punctuate` are present and lower-case to "true". */
  lemma RequiredFlagsStayOn(language: string, overrides: seq<string>)
    requires RequestParams(language, overrides).Success?
    ensures Get(RequestParams(language, overrides).value, "diarize").Some?
    ensures Text.Lower(Get(RequestParams(language, overrides).value, "diarize").value) == "true"
    ensures Get(RequestParams(language, overrides).value, "punctuate").Some?
    ensures Text.Lower(Get(RequestParams(language, overrides).value, "punctuate").value) == "true"
  {
    var d := Defaults(language);
    DefaultFlags(language);
    Text.LowerTrue();
    FlagStaysOn(d, overrides, "diarize");
    FlagStaysOn(d, overrides, "punctuate");
  }

  /** Both flags default to "true". */
  lemma DefaultFlags(language: string)
    ensures Get(Defaults(language), "punctuate") == Some("true")
    ensures Get(Defaults(language), "diarize") == Some("true")
  {
    var d := Defaults(language);
    var d3 := d[3..];
    assert d3 == [("diarize", "true"), ("utterances", "false"), ("alternatives", "1")];
    GetSkip(d, 3, "diarize");
    var d2 := d[2..];
    assert d2[0] == ("punctuate", "true");
    GetSkip(d, 2, "punctuate");
  }

  /** Looking a key up past leading entries with other keys. */
  lemma {:induction false} GetSkip(d: Dict, n: nat, k: string)
    requires n <= |d|
    requires forall i :: 0 <= i < n ==> d[i].0 != k
    ensures Get(d, k) == Get(d[n..], k)
    decreases n
  {
    if n > 0 {
      assert d[1..][n - 1..] == d[n..];
      assert forall i :: 0 <= i < n - 1 ==> d[1..][i] == d[i + 1];
      GetSkip(d[1..], n - 1, k);
    }
  }

  lemma FlagStaysOn(d: Dict, overrides: seq<string>, k: string)
    requires k == "diarize" || k == "punctuate"
    requires ApplyOverrides(d, overrides).Success?
    requires Get(d, k).Some? && Text.Lower(Get(d, k).value) == "true"
    ensures Get(ApplyOverrides(d, overrides).value, k).Some?
    ensures Text.Lower(Get(ApplyOverrides(d, overrides).value, k).value) == "true"
  {
    LastOverrideWins(d, overrides, k);
    LastSettingSource(overrides, k, Get(d, k));
    var final := LastSetting(overrides, k, Get(d, k));
    if final != Get(d, k) {
      var i :| 0 <= i < |overrides| && SetsTo(overrides[i], k, final.value);
      assert Accepted(overrides[i]);
    }
  }

  /** The `k=v` pieces of the query string, in key order. */
  function Pairs(d: Dict): (parts: seq<string>)
    ensures |parts| == |d|
    ensures forall i :: 0 <= i < |d| ==> parts[i] == d[i].0 + "=" + d[i].1
  {
    seq(|d|, i requires 0 <= i < |d| => d[i].0 + "=" + d[i].1)
  }

  /** `"&".join(f"{k}={url_params[k]}" for k in url_params)`. */
  function QueryString(d: Dict): (q: string)
    ensures |d| == 0 ==> q == ""
    ensures |d| >= 1 && (forall i :: 0 <= i < |d| ==> '&' !in Pairs(d)[i]) ==> Text.Split(q, '&') == Pairs(d)
  {
    if |d| >= 1 && (forall i :: 0 <= i < |d| ==> '&' !in Pairs(d)[i]) then
      Text.SplitJoin(Pairs(d), '&');
      Text.Join(Pairs(d), '&')
    else Text.Join(Pairs(d), '&')
  }

  /** A `k=v` piece with no '=' in `k` or `v` parses back to the pair. */
  lemma ParsePair(k: string, v: string)
    requires '=' !in k && '=' !in v
    ensures ParseOverride(k + "=" + v) == Some((k, v))
  {
    assert Text.Join([k, v], '=') == k + "=" + v;
    Text.SplitJoin([k, v], '=');
  }

  /**
   * When no key or value holds '&' or '=', splitting the query string on '&'
   * and each piece on '=' gives back the parameters, in order.
   */
  lemma QueryStringRoundTrip(d: Dict)
    requires |d| >= 1
    requires forall i :: 0 <= i < |d| ==> '&' !in d[i].0 && '=' !in d[i].0
    requires forall i :: 0 <= i < |d| ==> '&' !in d[i].1 && '=' !in d[i].1
    ensures |Text.Split(QueryString(d), '&')| == |d|
    ensures forall i :: 0 <= i < |d| ==> ParseOverride(Text.Split(QueryString(d), '&')[i]) == Some(d[i])
  {
    var parts := Pairs(d);
    forall i | 0 <= i < |d|
      ensures '&' !in parts[i]
      ensures ParseOverride(parts[i]) == Some(d[i])
    {
      ParsePair(d[i].0, d[i].1);
    }
  }
}
