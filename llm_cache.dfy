/** The prompt memo table of `algo/src/llm.ts`: a cache from the exact
    prompt text to the parsed JSON reply, a registry of prompts whose call
    is in flight, and the cache file that is loaded at start-up and
    rewritten after each new reply. The OpenAI call is replaced by its
    outcome, given to `Complete`; the file holds a JSON value, its text
    being left abstract. */
module LlmCache {
  import opened Wrappers
  import opened Json
  import opened Text

  /** `speed`: which model answers. */
  datatype Speed = Fast | Slow

  /** The model `promptLlm` asks for. */
  function ModelFor(speed: Speed): string {
    if speed == Fast then "gpt-5-nano" else "gpt-5-mini"
  }

  /** The two speeds ask for different models. */
  lemma ModelsDiffer()
    ensures ModelFor(Fast) == "gpt-5-nano" && ModelFor(Slow) == "gpt-5-mini"
    ensures ModelFor(Fast) != ModelFor(Slow)
  {
    assert ModelFor(Fast)[6] == 'n' && ModelFor(Slow)[6] == 'm';
  }

  /** The cache file as read at start-up: absent, blank after trimming,
      not JSON, or a JSON value. */
  datatype CacheFile = Missing | Blank | Unparsable | Parsed(value: Json)

  /** `String(i)` is one-to-one on array indices. */
  lemma IndexKeysDistinct(i: nat, j: nat)
    requires NatToString(i) == NatToString(j)
    ensures i == j
  {
    NatToStringValue(i);
    NatToStringValue(j);
  }

  /** `Object.entries` of an array: its elements under their decimal
      indices. */
  function ArrayEntries(items: seq<Json>): map<string, Json>
    decreases |items|
  {
    if items == [] then map[]
    else
      var n := |items| - 1;
      ArrayEntries(items[..n])[NatToString(n) := items[n]]
  }

  /** The entries start-up loads: those of an object or an array; nothing
      from a missing, blank or broken file or from any other value. */
  function LoadedEntries(f: CacheFile): map<string, Json> {
    if f.Parsed? && f.value.JObject? then f.value.fields
    else if f.Parsed? && f.value.JArray? then ArrayEntries(f.value.items)
    else map[]
  }

  /** The keys loaded from an array are exactly its indices in decimal,
      each with the element at that index. */
  lemma {:induction false} ArrayEntriesAreIndexed(items: seq<Json>)
    ensures forall i: nat :: i < |items| ==>
      NatToString(i) in ArrayEntries(items) && ArrayEntries(items)[NatToString(i)] == items[i]
    ensures forall k :: k in ArrayEntries(items) ==> exists i: nat :: i < |items| && k == NatToString(i)
    decreases |items|
  {
    if items != [] {
      var n := |items| - 1;
      var init := items[..n];
      ArrayEntriesAreIndexed(init);
      var m := ArrayEntries(items);
      forall i: nat | i < |items|
        ensures NatToString(i) in m && m[NatToString(i)] == items[i]
      {
        if i < n {
          if NatToString(i) == NatToString(n) {
            IndexKeysDistinct(i, n);
          }
          assert init[i] == items[i];
        }
      }
      forall k | k in m ensures exists i: nat :: i < |items| && k == NatToString(i) {
        if k != NatToString(n) {
          var i: nat :| i < |init| && k == NatToString(i);
          assert i < |items|;
        }
      }
    }
  }

  /** The object `saveCacheSync` builds with `obj[k] = v`: a key
      `__proto__` sets the object's prototype instead of adding an entry,
      so it is not written. */
  function SavedObject(cache: map<string, Json>): map<string, Json> {
    map k | k in cache && k != "__proto__" :: cache[k]
  }

  /** What `promptLlm` does before any call: fail without an API key
      (even for a cached prompt), answer from the cache, join the call in
      flight, or make a call with the model the speed selects. */
  datatype Outcome = MissingApiKey | Hit(value: Json) | Pending | Call(model: string)

  function Decide(hasApiKey: bool, cache: map<string, Json>, inflight: set<string>,
                  input: string, speed: Speed): Outcome
  {
    if !hasApiKey then MissingApiKey
    else if input in cache then Hit(cache[input])
    else if input in inflight then Pending
    else Call(ModelFor(speed))
  }

  /** The speed only picks the model: whether a call is made, and every
      other outcome, is the same for both speeds. */
  lemma DecideIgnoresSpeed(hasApiKey: bool, cache: map<string, Json>, inflight: set<string>, input: string)
    ensures Decide(hasApiKey, cache, inflight, input, Fast).Call?
      <==> Decide(hasApiKey, cache, inflight, input, Slow).Call?
    ensures !Decide(hasApiKey, cache, inflight, input, Fast).Call? ==>
      Decide(hasApiKey, cache, inflight, input, Fast) == Decide(hasApiKey, cache, inflight, input, Slow)
  {
  }

  /** A call is made exactly when the key is present and the prompt is
      neither cached nor in flight. */
  lemma CallOnlyWhenUnknown(hasApiKey: bool, cache: map<string, Json>, inflight: set<string>,
                            input: string, speed: Speed)
    ensures Decide(hasApiKey, cache, inflight, input, speed).Call?
      <==> hasApiKey && input !in cache && input !in inflight
    ensures Decide(hasApiKey, cache, inflight, input, speed).Hit?
      <==> hasApiKey && input in cache
  {
  }

  /** The upstream reply of a call: a failed request, or the reply text,
      parsed (`None` when it is not valid JSON). */
  datatype Reply = TransportFailed | Replied(parsed: Option<Json>)

  /** What the caller of a call receives. */
  datatype Answer = Value(value: Json) | UpstreamError | InvalidJson

  /** The module's state. */
  class Gateway {
    /** Whether `OPENAI_API_KEY` is set. */
    const hasApiKey: bool
    /** `cache`: prompt text to parsed reply. */
    var cache: map<string, Json>
    /** The keys of `inflight`: prompts whose call has not finished. */
    var inflight: set<string>
    /** The cache file's contents. */
    var file: CacheFile

    /** A prompt is never both cached and in flight. */
    ghost predicate Valid()
      reads this
    {
      inflight !! cache.Keys
    }

    /** Module start-up: load the entries of the cache file. */
    constructor (hasApiKey: bool, file: CacheFile)
      ensures Valid()
      ensures this.hasApiKey == hasApiKey && this.file == file
      ensures cache == LoadedEntries(file) && inflight == {}
    {
      this.hasApiKey := hasApiKey;
      this.file := file;
      inflight := {};
      var entries := LoadedEntries(file);
      var loaded: map<string, Json> := map[];
      var todo := entries.Keys;
      while todo != {}
        invariant todo <= entries.Keys
        invariant loaded.Keys == entries.Keys - todo
        invariant forall k :: k in loaded ==> loaded[k] == entries[k]
        decreases |todo|
      {
        var k :| k in todo;
        loaded := loaded[k := entries[k]];
        todo := todo - {k};
      }
      cache := loaded;
    }

    /** The synchronous part of `promptLlm(input, speed)`: decide, and
        register the prompt when a call is made. */
    method Begin(input: string, speed: Speed) returns (o: Outcome)
      requires Valid()
      modifies this
      ensures Valid()
      ensures o == Decide(hasApiKey, old(cache), old(inflight), input, speed)
      ensures cache == old(cache) && file == old(file)
      ensures inflight == if o.Call? then old(inflight) + {input} else old(inflight)
    {
      if !hasApiKey {
        return MissingApiKey;
      }
      if input in cache {
        return Hit(cache[input]);
      }
      if input in inflight {
        return Pending;
      }
      o := Call(ModelFor(speed));
      inflight := inflight + {input};
    }

    /** The end of a call for `input`: on a JSON reply, cache it and save
        the cache; on a failed request or a reply that is not JSON, change
        nothing; in every case the prompt is no longer in flight. */
    method Complete(input: string, reply: Reply) returns (a: Answer)
      requires Valid() && input in inflight
      modifies this
      ensures Valid()
      ensures inflight == old(inflight) - {input}
      ensures reply.Replied? && reply.parsed.Some? ==>
        a == Value(reply.parsed.value)
        && cache == old(cache)[input := reply.parsed.value]
        && file == Parsed(JObject(SavedObject(cache)))
      ensures reply.TransportFailed? ==> a == UpstreamError && cache == old(cache) && file == old(file)
      ensures reply.Replied? && reply.parsed.None? ==> a == InvalidJson && cache == old(cache) && file == old(file)
    {
      if reply.TransportFailed? {
        a := UpstreamError;
      } else if reply.parsed.None? {
        a := InvalidJson;
      } else {
        cache := cache[input := reply.parsed.value];
        SaveCache();
        a := Value(reply.parsed.value);
      }
      inflight := inflight - {input};
    }

    /** `saveCacheSync()`: copy every entry into a fresh object and write
        it to the file. */
    method SaveCache()
      modifies this
      ensures file == Parsed(JObject(SavedObject(cache)))
      ensures cache == old(cache) && inflight == old(inflight)
    {
      var obj: map<string, Json> := map[];
      var todo := cache.Keys;
      while todo != {}
        invariant todo <= cache.Keys
        invariant obj.Keys == (cache.Keys - todo) - {"__proto__"}
        invariant forall k :: k in obj ==> obj[k] == cache[k]
        decreases |todo|
      {
        var k :| k in todo;
        if k != "__proto__" {
          obj := obj[k := cache[k]];
        }
        todo := todo - {k};
      }
      assert obj == SavedObject(cache);
      file := Parsed(JObject(obj));
    }

    /** `_llmCacheSize()`. */
    function CacheSize(): nat
      reads this
    {
      |cache|
    }

    /** `_llmClearCache()`: forget every cached reply; the file is left as
        it is. */
    method ClearCache()
      modifies this
      ensures CacheSize() == 0
      ensures cache == map[] && inflight == old(inflight) && file == old(file)
    {
      cache := map[];
    }
  }

  /** Loading what was saved gives back the cache, except an entry under
      the key `__proto__`. */
  lemma SaveThenLoad(cache: map<string, Json>)
    ensures forall k :: k in LoadedEntries(Parsed(JObject(SavedObject(cache)))) <==>
      k in cache && k != "__proto__"
    ensures forall k :: k in LoadedEntries(Parsed(JObject(SavedObject(cache)))) ==>
      LoadedEntries(Parsed(JObject(SavedObject(cache))))[k] == cache[k]
  {
  }

  /** When no prompt is `__proto__`, loading what was saved restores the
      cache exactly. */
  lemma SaveThenLoadExact(cache: map<string, Json>)
    requires "__proto__" !in cache
    ensures LoadedEntries(Parsed(JObject(SavedObject(cache)))) == cache
  {
    SaveThenLoad(cache);
  }
}
