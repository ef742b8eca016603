/** Environment-variable substitution in program option values
    (lib/ProgramOptions/Translator.cpp).

    `DefineEnvironment` fills a process-wide map from a list such as
    `"a=1,b=x=y,c"`; `EnvironmentTranslator` then rewrites an option value,
    replacing `@NAME@` by the value of NAME and `@@` by a literal `@`.
    The process environment read by `getenv` is the parameter `osEnv`. */
module Translator {
  import opened Strings
  import opened Optional

  // ---------------------------------------------------------------------
  // Parsing the key=value list

  /** The comma-separated items of a non-empty list; an empty item stands
      between two adjacent commas. */
  function Pieces(s: string): (r: seq<string>)
    ensures |r| >= 1
    ensures forall k :: 0 <= k < |r| ==> ',' !in r[k]
    decreases |s|
  {
    var i := IndexOf(s, ',');
    if i == |s| then [s] else [s[..i]] + Pieces(s[i + 1..])
  }

  /** The items `StringUtils::split(keyValues, ',', '\0')` yields: none for
      the empty list, otherwise the pieces between the commas. */
  function SplitList(s: string): (r: seq<string>)
    ensures forall k :: 0 <= k < |r| ==> ',' !in r[k]
    ensures r == [] <==> s == []
  {
    if s == [] then [] else Pieces(s)
  }

  /** The comma-separated list made of `items`: the inverse of `SplitList`. */
  function JoinList(items: seq<string>): (s: string)
    decreases |items|
  {
    if |items| == 0 then ""
    else if |items| == 1 then items[0]
    else items[0] + "," + JoinList(items[1..])
  }

  lemma {:induction false} JoinPieces(s: string)
    ensures JoinList(Pieces(s)) == s
    decreases |s|
  {
    var i := IndexOf(s, ',');
    if i < |s| {
      var tail := s[i + 1..];
      var rest := Pieces(tail);
      var items := [s[..i]] + rest;
      assert Pieces(s) == items;
      assert items[1..] == rest;
      calc {
        JoinList(items);
        s[..i] + "," + JoinList(rest);
        { JoinPieces(tail); }
        s[..i] + "," + tail;
        { assert s == s[..i] + "," + tail; }
        s;
      }
    }
  }

  /** Joining the items of a list gives back the list. */
  lemma JoinSplit(s: string)
    ensures JoinList(SplitList(s)) == s
  {
    if s != [] {
      JoinPieces(s);
    }
  }

  lemma {:induction false} PiecesJoin(items: seq<string>)
    requires |items| >= 1
    requires forall k :: 0 <= k < |items| ==> ',' !in items[k]
    ensures Pieces(JoinList(items)) == items
    decreases |items|
  {
    if |items| >= 2 {
      var head, tail := items[0], items[1..];
      var rest := JoinList(tail);
      var s := head + "," + rest;
      assert JoinList(items) == s;
      IndexOfAfter(head, ',', rest);
      assert s[..|head|] == head;
      assert s[|head| + 1..] == rest;
      assert Pieces(s) == [head] + Pieces(rest);
      PiecesJoin(tail);
      assert items == [head] + tail;
    } else {
      assert IndexOf(items[0], ',') == |items[0]|;
    }
  }

  /** Splitting a joined list gives back its items, as long as no item holds
      a comma and the list is not the single empty item (which joins to the
      empty string, read back as no items at all). */
  lemma SplitJoin(items: seq<string>)
    requires forall k :: 0 <= k < |items| ==> ',' !in items[k]
    requires items != [""]
    ensures SplitList(JoinList(items)) == items
  {
    if |items| >= 1 {
      PiecesJoin(items);
      if |items| >= 2 {
        assert |JoinList(items)| > |items[0]|;
      }
    }
  }

  /** One item split at its first `=`: the key never holds `=`, the value
      may; an item with no `=` is all key and maps to the empty value. */
  function SplitKeyValue(item: string): (kv: (string, string))
    ensures '=' !in kv.0
    ensures '=' in item ==> item == kv.0 + "=" + kv.1
    ensures '=' !in item ==> kv == (item, "")
  {
    var delim := IndexOf(item, '=');
    if delim == |item| then (item, "")
    else (item[..delim], item[delim + 1..])
  }

  /** `key=value` splits back into `key` and `value` whatever `=` the value
      holds. */
  lemma KeyValueRoundTrip(key: string, value: string)
    requires '=' !in key
    ensures SplitKeyValue(key + "=" + value) == (key, value)
  {
    IndexOfAfter(key, '=', value);
    var item := key + "=" + value;
    assert item[..|key|] == key;
    assert item[|key| + 1..] == value;
  }

  /** The map after each item, in list order, has set `map[key] = value`. */
  function ApplyItems(env: map<string, string>, items: seq<string>): (r: map<string, string>)
    decreases |items|
  {
    if items == [] then env
    else
      var kv := SplitKeyValue(items[0]);
      ApplyItems(env[kv.0 := kv.1], items[1..])
  }

  /** The value the last item with key `key` carries, if any item has that
      key. */
  function LastValue(items: seq<string>, key: string): (r: Option<string>)
    ensures r.None? <==> forall k :: 0 <= k < |items| ==> SplitKeyValue(items[k]).0 != key
    ensures r.Some? ==> exists k :: 0 <= k < |items| && SplitKeyValue(items[k]) == (key, r.value) &&
                          forall j :: k < j < |items| ==> SplitKeyValue(items[j]).0 != key
    decreases |items|
  {
    if items == [] then None
    else
      var later := LastValue(items[1..], key);
      if later.Some? then
        var k :| 0 <= k < |items| - 1 && SplitKeyValue(items[1..][k]) == (key, later.value) &&
                 forall j :: k < j < |items| - 1 ==> SplitKeyValue(items[1..][j]).0 != key;
        assert forall j :: k + 1 < j < |items| ==> items[j] == items[1..][j - 1];
        assert SplitKeyValue(items[k + 1]) == (key, later.value);
        later
      else if SplitKeyValue(items[0]).0 == key then
        assert forall j :: 0 < j < |items| ==> items[j] == items[1..][j - 1];
        Some(SplitKeyValue(items[0]).1)
      else None
  }

  /** Later items overwrite earlier ones with the same key, and a key no item
      names keeps whatever it had (or stays absent). */
  lemma {:induction false} ApplyItemsLookup(env: map<string, string>, items: seq<string>, key: string)
    ensures LastValue(items, key).Some? ==>
      key in ApplyItems(env, items) && ApplyItems(env, items)[key] == LastValue(items, key).value
    ensures LastValue(items, key).None? ==>
      (key in ApplyItems(env, items) <==> key in env) &&
      (key in env ==> ApplyItems(env, items)[key] == env[key])
    decreases |items|
  {
    if items != [] {
      var kv := SplitKeyValue(items[0]);
      ApplyItemsLookup(env[kv.0 := kv.1], items[1..], key);
    }
  }

  // ---------------------------------------------------------------------
  // Substitution

  /** What `getenv(name)` answers: the variable's value, or no value. */
  function Getenv(osEnv: map<string, string>, name: string): (r: Option<string>)
    ensures r.Some? <==> name in osEnv
    ensures r.Some? ==> r.value == osEnv[name]
  {
    if name in osEnv then Some(osEnv[name]) else None
  }

  /** The replacement for `@name@`: the process environment's value when it
      is set and non-empty, else the defined value, else the empty string.
      C strings are read up to their first NUL. */
  function Lookup(osEnv: map<string, string>, defined: map<string, string>, name: string): string
  {
    var v := Getenv(osEnv, CStr(name));
    if v.Some? && CStr(v.value) != "" then CStr(v.value)
    else if name in defined then CStr(defined[name])
    else ""
  }

  /** The output of the scanner that has produced `out` and resumes at
      position `q` of `s`, read left to right as the scanner reads it. */
  function Scan(osEnv: map<string, string>, defined: map<string, string>, s: string, q: nat, out: string): (r: string)
    requires q <= |s|
    decreases |s| - q
  {
    if q == |s| then out
    else if s[q] != '@' then Scan(osEnv, defined, s, q + 1, out + [s[q]])
    else if q + 1 < |s| && s[q + 1] == '@' then Scan(osEnv, defined, s, q + 2, out + "@")
    else
      var close := IndexFrom(s, '@', q + 1);
      if close < |s| then Scan(osEnv, defined, s, close + 1, out + Lookup(osEnv, defined, s[q + 1..close]))
      else out + CStr(s[q..])
  }

  /** The translation of the whole of `s`. */
  function Translate(osEnv: map<string, string>, defined: map<string, string>, s: string): (r: string)
  {
    Scan(osEnv, defined, s, 0, "")
  }

  /** What was produced before is kept as it is, in front of the rest. */
  lemma {:induction false} ScanOut(osEnv: map<string, string>, defined: map<string, string>, s: string, q: nat, out: string)
    requires q <= |s|
    ensures Scan(osEnv, defined, s, q, out) == out + Scan(osEnv, defined, s, q, "")
    decreases |s| - q, 1
  {
    if q == |s| {
      assert out + "" == out;
    } else if s[q] != '@' {
      ScanOutStep(osEnv, defined, s, q + 1, out, [s[q]]);
    } else if q + 1 < |s| && s[q + 1] == '@' {
      ScanOutStep(osEnv, defined, s, q + 2, out, "@");
    } else {
      var close := IndexFrom(s, '@', q + 1);
      if close < |s| {
        ScanOutStep(osEnv, defined, s, close + 1, out, Lookup(osEnv, defined, s[q + 1..close]));
      } else {
        assert "" + CStr(s[q..]) == CStr(s[q..]);
      }
    }
  }

  /** `ScanOut` after one piece `v` of output. */
  lemma {:induction false} ScanOutStep(osEnv: map<string, string>, defined: map<string, string>, s: string, q: nat, out: string, v: string)
    requires q <= |s|
    ensures Scan(osEnv, defined, s, q, out + v) == out + Scan(osEnv, defined, s, q, "" + v)
    decreases |s| - q, 2
  {
    ScanOut(osEnv, defined, s, q, out + v);
    ScanOut(osEnv, defined, s, q, v);
    assert "" + v == v;
    assert (out + v) + Scan(osEnv, defined, s, q, "") == out + (v + Scan(osEnv, defined, s, q, ""));
  }

  /** What precedes position `|p|` plays no part in the scan of what
      follows it. */
  lemma {:induction false} ScanShift(osEnv: map<string, string>, defined: map<string, string>, p: string, s: string, i: nat, out: string)
    requires i <= |s|
    ensures Scan(osEnv, defined, p + s, |p| + i, out) == Scan(osEnv, defined, s, i, out)
    decreases |s| - i, 2
  {
    var ps := p + s;
    var j := |p| + i;
    if i == |s| {
      assert |ps| == j;
    } else if s[i] != '@' {
      assert ps[j] == s[i];
      ScanShift(osEnv, defined, p, s, i + 1, out + [s[i]]);
      assert Scan(osEnv, defined, ps, j, out) == Scan(osEnv, defined, ps, j + 1, out + [s[i]]);
    } else if i + 1 < |s| && s[i + 1] == '@' {
      assert ps[j] == s[i] && ps[j + 1] == s[i + 1];
      ScanShift(osEnv, defined, p, s, i + 2, out + "@");
      assert Scan(osEnv, defined, ps, j, out) == Scan(osEnv, defined, ps, j + 2, out + "@");
    } else {
      ScanShiftName(osEnv, defined, p, s, i, out);
    }
  }

  /** One step of the scan at an `@` that does not start `@@`. */
  lemma ScanNameStep(osEnv: map<string, string>, defined: map<string, string>, s: string, q: nat, out: string)
    requires q < |s| && s[q] == '@' && !(q + 1 < |s| && s[q + 1] == '@')
    ensures var close := IndexFrom(s, '@', q + 1);
      Scan(osEnv, defined, s, q, out) ==
        if close < |s| then Scan(osEnv, defined, s, close + 1, out + Lookup(osEnv, defined, s[q + 1..close]))
        else out + CStr(s[q..])
  {
  }

  /** `ScanShift` at an `@` that does not start `@@`. */
  lemma {:induction false} ScanShiftName(osEnv: map<string, string>, defined: map<string, string>, p: string, s: string, i: nat, out: string)
    requires i < |s| && s[i] == '@' && !(i + 1 < |s| && s[i + 1] == '@')
    ensures Scan(osEnv, defined, p + s, |p| + i, out) == Scan(osEnv, defined, s, i, out)
    decreases |s| - i, 1
  {
    var ps := p + s;
    var j := |p| + i;
    assert ps[j] == s[i];
    assert j + 1 < |ps| ==> ps[j + 1] == s[i + 1];
    ScanNameStep(osEnv, defined, ps, j, out);
    ScanNameStep(osEnv, defined, s, i, out);
    ShiftIndexFrom(p, s, i + 1);
    var close := IndexFrom(s, '@', i + 1);
    if close < |s| {
      ScanShiftClosed(osEnv, defined, p, s, i, out);
      assert IndexFrom(ps, '@', j + 1) == |p| + close;
    } else {
      assert IndexFrom(ps, '@', j + 1) == |ps|;
      assert ps[j..] == s[i..];
    }
  }

  /** `ScanShiftName` when a second `@` closes the name. */
  lemma {:induction false} ScanShiftClosed(osEnv: map<string, string>, defined: map<string, string>, p: string, s: string, i: nat, out: string)
    requires i < |s| && IndexFrom(s, '@', i + 1) < |s|
    ensures var close := IndexFrom(s, '@', i + 1);
      var v := Lookup(osEnv, defined, s[i + 1..close]);
      (p + s)[|p| + i + 1..|p| + close] == s[i + 1..close] &&
      Scan(osEnv, defined, p + s, |p| + close + 1, out + v) == Scan(osEnv, defined, s, close + 1, out + v)
    decreases |s| - i, 0
  {
    var close := IndexFrom(s, '@', i + 1);
    var v := Lookup(osEnv, defined, s[i + 1..close]);
    assert (p + s)[|p| + i + 1..|p| + close] == s[i + 1..close];
    ScanShift(osEnv, defined, p, s, close + 1, out + v);
  }

  lemma ShiftIndexFrom(p: string, s: string, i: nat)
    requires i <= |s|
    ensures IndexFrom(p + s, '@', |p| + i) == |p| + IndexFrom(s, '@', i)
  {
    var ps := p + s;
    var close := IndexFrom(s, '@', i);
    assert forall k :: |p| + i <= k < |p| + close ==> ps[k] == s[k - |p|];
    IndexFromUnique(ps, '@', |p| + i, |p| + close);
  }

  /** The characters of a prefix without `@` are copied one by one. */
  lemma {:induction false} ScanLiteral(osEnv: map<string, string>, defined: map<string, string>, p: string, s: string, j: nat, out: string)
    requires j <= |p| && '@' !in p
    ensures Scan(osEnv, defined, p + s, j, out) == Scan(osEnv, defined, p + s, |p|, out + p[j..])
    decreases |p| - j
  {
    if j < |p| {
      assert (p + s)[j] == p[j];
      ScanLiteral(osEnv, defined, p, s, j + 1, out + [p[j]]);
      assert (out + [p[j]]) + p[j + 1..] == out + p[j..];
    } else {
      assert out + p[j..] == out;
    }
  }

  /** A prefix without `@` is copied unchanged. */
  lemma TranslateLiteral(osEnv: map<string, string>, defined: map<string, string>, p: string, s: string)
    requires '@' !in p
    ensures Translate(osEnv, defined, p + s) == p + Translate(osEnv, defined, s)
  {
    ScanLiteral(osEnv, defined, p, s, 0, "");
    assert "" + p[0..] == p;
    ScanShift(osEnv, defined, p, s, 0, p);
    ScanOut(osEnv, defined, s, 0, p);
  }

  /** A string without `@` translates to itself. */
  lemma NoAtIdentity(osEnv: map<string, string>, defined: map<string, string>, s: string)
    requires '@' !in s
    ensures Translate(osEnv, defined, s) == s
  {
    TranslateLiteral(osEnv, defined, s, "");
    assert s + "" == s;
  }

  /** `@@` yields exactly one literal `@`. */
  lemma TranslateEscapedAt(osEnv: map<string, string>, defined: map<string, string>, s: string)
    ensures Translate(osEnv, defined, "@@" + s) == "@" + Translate(osEnv, defined, s)
  {
    assert "" + "@" == "@";
    ScanShift(osEnv, defined, "@@", s, 0, "@");
    ScanOut(osEnv, defined, s, 0, "@");
  }

  /** `@name@` is replaced by the looked-up value of `name`; the name is
      never empty, since `@@` is the escape for `@`. */
  lemma TranslateSubstitution(osEnv: map<string, string>, defined: map<string, string>, name: string, s: string)
    requires name != [] && '@' !in name
    ensures Translate(osEnv, defined, "@" + name + "@" + s) ==
            Lookup(osEnv, defined, name) + Translate(osEnv, defined, s)
  {
    var p := "@" + name + "@";
    var t := p + s;
    var v := Lookup(osEnv, defined, name);
    assert t == "@" + name + "@" + s;
    assert t[1] == name[0];
    assert forall k :: 1 <= k < |name| + 1 ==> t[k] == name[k - 1];
    IndexFromUnique(t, '@', 1, |name| + 1);
    assert t[1..|name| + 1] == name;
    assert "" + v == v;
    assert Translate(osEnv, defined, t) == Scan(osEnv, defined, t, |p| + 0, v);
    ScanShift(osEnv, defined, p, s, 0, v);
    ScanOut(osEnv, defined, s, 0, v);
  }

  /** For names and values free of NUL characters, a non-empty process
      environment value wins over a defined one, which wins over "". */
  lemma LookupPrecedence(osEnv: map<string, string>, defined: map<string, string>, name: string)
    requires '\0' !in name
    requires name in osEnv ==> '\0' !in osEnv[name]
    requires name in defined ==> '\0' !in defined[name]
    ensures Lookup(osEnv, defined, name) ==
            if name in osEnv && osEnv[name] != "" then osEnv[name]
            else if name in defined then defined[name]
            else ""
  {
  }

  /** An `@` never closed by another `@` starts a tail that is copied
      verbatim up to the first NUL, including a lone trailing `@`. */
  lemma TranslateUnterminated(osEnv: map<string, string>, defined: map<string, string>, tail: string)
    requires '@' !in tail
    ensures Translate(osEnv, defined, "@" + tail) == CStr("@" + tail)
    ensures '\0' !in tail ==> Translate(osEnv, defined, "@" + tail) == "@" + tail
  {
    var t := "@" + tail;
    assert forall k :: 1 <= k < |t| ==> t[k] == tail[k - 1];
    IndexFromUnique(t, '@', 1, |t|);
    assert t[0..] == t;
    assert "" + CStr(t) == CStr(t);
  }

  /** `s` with every `@` doubled: the literal spelling of `s`. */
  function Escape(s: string): (r: string)
    ensures |r| >= |s|
    decreases |s|
  {
    if s == [] then ""
    else if s[0] == '@' then "@@" + Escape(s[1..])
    else [s[0]] + Escape(s[1..])
  }

  /** Doubling every `@` makes any string pass through the translator
      literally. */
  lemma {:induction false} EscapeRoundTrip(osEnv: map<string, string>, defined: map<string, string>, s: string)
    ensures Translate(osEnv, defined, Escape(s)) == s
    decreases |s|
  {
    if s != [] {
      EscapeRoundTrip(osEnv, defined, s[1..]);
      if s[0] == '@' {
        TranslateEscapedAt(osEnv, defined, Escape(s[1..]));
      } else {
        TranslateLiteral(osEnv, defined, [s[0]], Escape(s[1..]));
      }
    }
  }

  // ---------------------------------------------------------------------
  // The translator and its process-wide map

  /** Holds the map that `DefineEnvironment` fills, a namespace-level
      global in the source. */
  class Translator {
    var environment: map<string, string>

    constructor ()
      ensures environment == map[]
    {
      environment := map[];
    }

    /** Sets `environment[key] = value` for every item of the list, in
        order. */
    method DefineEnvironment(keyValues: string)
      modifies this
      ensures environment == ApplyItems(old(environment), SplitList(keyValues))
    {
      var kvs := SplitList(keyValues);
      var i := 0;
      while i < |kvs|
        invariant 0 <= i <= |kvs|
        invariant ApplyItems(environment, kvs[i..]) == ApplyItems(old(environment), kvs)
      {
        var keyValue := kvs[i];
        var (key, value) := SplitKeyValue(keyValue);
        environment := environment[key := value];
        assert kvs[i..][1..] == kvs[i + 1..];
        i := i + 1;
      }
    }

    /** Rewrites `value`, substituting `@NAME@` and unescaping `@@`. */
    method EnvironmentTranslator(value: string, osEnv: map<string, string>) returns (result: string)
      ensures result == Translate(osEnv, environment, value)
      ensures value == [] ==> result == []
    {
      if value == [] {
        return value;
      }
      result := "";
      var q := 0;
      while q < |value|
        invariant 0 <= q <= |value|
        invariant Scan(osEnv, environment, value, q, result) == Translate(osEnv, environment, value)
      {
        if value[q] == '@' {
          q := q + 1;
          if q < |value| && value[q] == '@' {
            result := result + "@";
          } else {
            var t := q;
            while q < |value| && value[q] != '@'
              invariant t <= q <= |value|
              invariant forall k :: t <= k < q ==> value[k] != '@'
            {
              q := q + 1;
            }
            IndexFromUnique(value, '@', t, q);
            if q < |value| {
              var vv := Resolve(value[t..q], osEnv);
              result := result + vv;
            } else {
              result := result + CStr(value[t - 1..]);
              break;
            }
          }
        } else {
          result := result + [value[q]];
        }
        q := q + 1;
      }
    }

    /** The value substituted for `@k@`: `getenv` first, an empty answer
        counting as unset, then the defined map, then nothing. */
    method Resolve(k: string, osEnv: map<string, string>) returns (vv: string)
      ensures vv == Lookup(osEnv, environment, k)
    {
      var v := Getenv(osEnv, CStr(k));
      if v.Some? && CStr(v.value) == "" {
        v := None;
      }
      if v.None? && k in environment {
        v := Some(environment[k]);
      }
      vv := if v.None? then "" else CStr(v.value);
    }
  }
}
