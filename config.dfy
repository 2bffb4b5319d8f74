/** The configuration store of `src/utils/config.py`: a nested mapping loaded
    from YAML and queried with dot-separated key paths. */
module Configuration {
  import opened Wrappers
  import PyStr

  /** A YAML value as `yaml.safe_load` produces it; `Null` is Python's `None`. */
  datatype Value =
    | Null
    | Bool(b: bool)
    | Int(i: int)
    | Float(f: real)
    | Str(s: string)
    | List(items: seq<Value>)
    | Dict(entries: map<string, Value>)

  /** One iteration of the lookup loop: only a dict can be indexed, and a
      missing key reads as `None`, which ends the walk like a stored `None`. */
  function Step(v: Value, k: string): Option<Value>
  {
    if v.Dict? && k in v.entries && v.entries[k] != Null then Some(v.entries[k])
    else None
  }

  /** Where the walk along `keys` from `v` ends up, taken segment by segment
      from the left as the loop does (`None` when it stops early). */
  function Descend(v: Value, keys: seq<string>): Option<Value>
    decreases |keys|
  {
    if |keys| == 0 then Some(v)
    else
      match Descend(v, keys[..|keys| - 1])
      case None => None
      case Some(w) => Step(w, keys[|keys| - 1])
  }

  /** The value `Config.get(key, default)` answers for stored data `data`. */
  function Resolve(data: map<string, Value>, key: string, default: Value): Value
  {
    Descend(Dict(data), PyStr.Split(key, '.')).GetOr(default)
  }

  /** Looking at the first segment, then at the rest: the right-to-left view
      of the same walk. */
  lemma {:induction false} DescendCons(v: Value, k: string, ks: seq<string>)
    ensures Descend(v, [k] + ks)
         == match Step(v, k) case None => None case Some(w) => Descend(w, ks)
    decreases |ks|
  {
    var keys := [k] + ks;
    if |ks| == 0 {
      assert keys[..0] == [];
    } else {
      var front := ks[..|ks| - 1];
      assert keys[..|keys| - 1] == [k] + front;
      assert keys[|keys| - 1] == ks[|ks| - 1];
      DescendCons(v, k, front);
    }
  }

  /** Once the walk has stopped it stays stopped. */
  lemma {:induction false} DescendStaysStopped(v: Value, keys: seq<string>, i: nat)
    requires i <= |keys|
    requires Descend(v, keys[..i]) == None
    ensures Descend(v, keys) == None
    decreases |keys| - i
  {
    if i < |keys| {
      assert keys[..i + 1][..i] == keys[..i];
      DescendStaysStopped(v, keys, i + 1);
    } else {
      assert keys[..i] == keys;
    }
  }

  /** A walk over at least one segment never ends on a stored `None`. */
  lemma DescendNeverNull(v: Value, keys: seq<string>)
    requires |keys| > 0
    ensures Descend(v, keys) != Some(Null)
  {
  }

  /** Reaching, before segment `i`, a value that cannot supply segment `i`
      (not a dict, key absent, or key bound to `None`) ends the walk. */
  lemma DescendStopsAtGap(v: Value, keys: seq<string>, i: nat, w: Value)
    requires i < |keys|
    requires Descend(v, keys[..i]) == Some(w)
    requires !w.Dict? || keys[i] !in w.entries || w.entries[keys[i]] == Null
    ensures Descend(v, keys) == None
  {
    assert keys[..i + 1][..i] == keys[..i];
    DescendStaysStopped(v, keys, i + 1);
  }

  /** A key with no dot reads one entry of the top-level mapping. */
  lemma ResolveSingleSegment(data: map<string, Value>, key: string, default: Value)
    requires '.' !in key
    ensures Resolve(data, key, default)
         == if key in data && data[key] != Null then data[key] else default
  {
    PyStr.SplitWithoutSeparator(key, '.');
    DescendCons(Dict(data), key, []);
    assert [key] + [] == [key];
  }

  /** A segment that is missing from the dict reached so far gives `default`. */
  lemma ResolveMissingSegment(data: map<string, Value>, key: string, default: Value,
                              i: nat, m: map<string, Value>)
    requires i < |PyStr.Split(key, '.')|
    requires Descend(Dict(data), PyStr.Split(key, '.')[..i]) == Some(Dict(m))
    requires PyStr.Split(key, '.')[i] !in m
    ensures Resolve(data, key, default) == default
  {
    DescendStopsAtGap(Dict(data), PyStr.Split(key, '.'), i, Dict(m));
  }

  /** A stored `None` along the path gives `default`, as an absent key does. */
  lemma ResolveNullSegment(data: map<string, Value>, key: string, default: Value,
                           i: nat, m: map<string, Value>)
    requires i < |PyStr.Split(key, '.')|
    requires Descend(Dict(data), PyStr.Split(key, '.')[..i]) == Some(Dict(m))
    requires PyStr.Split(key, '.')[i] in m && m[PyStr.Split(key, '.')[i]] == Null
    ensures Resolve(data, key, default) == default
  {
    DescendStopsAtGap(Dict(data), PyStr.Split(key, '.'), i, Dict(m));
  }

  /** Reaching a non-dict value while segments remain gives `default`. */
  lemma ResolveNonDictIntermediate(data: map<string, Value>, key: string, default: Value,
                                   i: nat, w: Value)
    requires i < |PyStr.Split(key, '.')|
    requires Descend(Dict(data), PyStr.Split(key, '.')[..i]) == Some(w)
    requires !w.Dict?
    ensures Resolve(data, key, default) == default
  {
    DescendStopsAtGap(Dict(data), PyStr.Split(key, '.'), i, w);
  }

  /** A path that resolves yields the stored value itself, never `None` and
      whatever `default` is; falsy values (0, 0.0, False, "") included. */
  lemma ResolveFound(data: map<string, Value>, key: string, default: Value, x: Value)
    requires Descend(Dict(data), PyStr.Split(key, '.')) == Some(x)
    ensures Resolve(data, key, default) == x
    ensures x != Null
  {
    DescendNeverNull(Dict(data), PyStr.Split(key, '.'));
  }

  /** `get` answers `None` only when `None` was the default. */
  lemma ResolveNullOnlyAsDefault(data: map<string, Value>, key: string, default: Value)
    requires Resolve(data, key, default) == Null
    ensures default == Null
  {
    DescendNeverNull(Dict(data), PyStr.Split(key, '.'));
  }

  /** Storing `None` under a top-level key is indistinguishable from not
      storing the key at all, for every query. */
  lemma ResolveNullLikeAbsent(data: map<string, Value>, k: string, key: string, default: Value)
    ensures Resolve(data[k := Null], key, default) == Resolve(data - {k}, key, default)
  {
    var keys := PyStr.Split(key, '.');
    assert keys == [keys[0]] + keys[1..];
    DescendCons(Dict(data[k := Null]), keys[0], keys[1..]);
    DescendCons(Dict(data - {k}), keys[0], keys[1..]);
  }

  /** Compositionality: when `data[seg]` is a dict, `get(seg + "." + rest)` is
      the lookup of `rest` inside that dict. */
  lemma ResolveCompose(data: map<string, Value>, seg: string, rest: string, default: Value)
    requires '.' !in seg
    requires seg in data && data[seg].Dict?
    ensures Resolve(data, seg + "." + rest, default) == Resolve(data[seg].entries, rest, default)
  {
    PyStr.SplitPeel(seg, rest, '.');
    assert seg + "." + rest == seg + ['.'] + rest;
    DescendCons(Dict(data), seg, PyStr.Split(rest, '.'));
    assert Dict(data[seg].entries) == data[seg];
  }

  /** The stored mapping of the documented example: `llm.temperature` is 0.0. */
  function ExampleData(): map<string, Value>
  {
    map["llm" := Dict(map["temperature" := Float(0.0)])]
  }

  lemma SplitExampleKey(head: string, tail: string, key: string)
    requires '.' !in head && '.' !in tail
    requires key == head + "." + tail
    ensures PyStr.Split(key, '.') == [head, tail]
  {
    PyStr.SplitJoin([head, tail], '.');
    assert PyStr.Join([head, tail], '.') == head + "." + tail;
  }

  lemma DescendExample(tail: string)
    ensures Descend(Dict(ExampleData()), ["llm", tail])
         == if tail == "temperature" then Some(Float(0.0)) else None
  {
    var llm := map["temperature" := Float(0.0)];
    DescendCons(Dict(ExampleData()), "llm", [tail]);
    assert ["llm"] + [tail] == ["llm", tail];
    assert Step(Dict(ExampleData()), "llm") == Some(Dict(llm));
    DescendCons(Dict(llm), tail, []);
    assert [tail] + [] == [tail];
  }

  /** Documented call: `get("llm.temperature")` is 0.0, a falsy value that is
      returned as it is, whatever the default. */
  lemma ExampleTemperature(default: Value)
    ensures Resolve(ExampleData(), "llm.temperature", default) == Float(0.0)
  {
    SplitExampleKey("llm", "temperature", "llm.temperature");
    DescendExample("temperature");
  }

  /** Documented call: `get("llm.nonexistent", "fallback")` is "fallback". */
  lemma ExampleFallback()
    ensures Resolve(ExampleData(), "llm.nonexistent", Str("fallback")) == Str("fallback")
  {
    SplitExampleKey("llm", "nonexistent", "llm.nonexistent");
    DescendExample("nonexistent");
  }

  /** The configuration manager. `data` is `self._data`; reading it from the
      YAML file (`_load`, `reload`) is not part of this model, so the
      constructor takes the loaded mapping. */
  class Config {
    var data: map<string, Value>

    constructor (data: map<string, Value>)
      ensures this.data == data
    {
      this.data := data;
    }

    /** `Config.get`: walk the dot-separated segments of `key`, returning
        `default` as soon as a non-dict, a missing key or a `None` is met. */
    method Get(key: string, default: Value := Null) returns (r: Value)
      ensures r == Resolve(data, key, default)
    {
      var keys := PyStr.Split(key, '.');
      var value := Dict(data);
      for i := 0 to |keys|
        invariant Descend(Dict(data), keys[..i]) == Some(value)
      {
        assert keys[..i + 1][..i] == keys[..i];
        if value.Dict? {
          value := if keys[i] in value.entries then value.entries[keys[i]] else Null;
        } else {
          DescendStaysStopped(Dict(data), keys, i + 1);
          return default;
        }
        if value == Null {
          DescendStaysStopped(Dict(data), keys, i + 1);
          return default;
        }
      }
      assert keys[..|keys|] == keys;
      return value;
    }

    /** `Config.as_dict`: a copy of the whole stored mapping. */
    function AsDict(): (r: map<string, Value>)
      reads this
      ensures r.Keys == data.Keys
      ensures forall k :: k in r ==> r[k] == data[k]
    {
      map k | k in data :: data[k]
    }
  }
}
