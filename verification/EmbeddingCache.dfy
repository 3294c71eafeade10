/** `CachedEmbeddingGenerator` of `core/memory/embeddings.py` over a deterministic delegate. The
    delegate and the hash are the functions `embed` and `hash`; timeouts are arguments. */
module EmbeddingCache {
  import opened Basics

  datatype Error = TimedOut

  /** Every entry is the delegate's answer for some text with that hash. */
  ghost predicate CacheOk<T(!new), H, V>(embed: T -> V, hash: T -> H, cache: map<H, V>) {
    forall h :: h in cache ==> exists t :: hash(t) == h && cache[h] == embed(t)
  }

  /** Texts that the hash cannot tell apart have the same embedding. */
  ghost predicate CollisionFree<T(!new), H, V>(embed: T -> V, hash: T -> H) {
    forall s, t :: hash(s) == hash(t) ==> embed(s) == embed(t)
  }

  /** Hits are always right exactly when the hash is collision-free for the delegate. */
  lemma HitsAreRight<T(!new), H(!new), V(!new)>(embed: T -> V, hash: T -> H)
    ensures CollisionFree(embed, hash) <==>
              forall cache: map<H, V>, t :: CacheOk(embed, hash, cache) && hash(t) in cache ==>
                  cache[hash(t)] == embed(t)
  {
    if forall cache: map<H, V>, t :: CacheOk(embed, hash, cache) && hash(t) in cache ==> cache[hash(t)] == embed(t) {
      forall s, t | hash(s) == hash(t) ensures embed(s) == embed(t) {
        var cache: map<H, V> := map[hash(s) := embed(s)];
        assert CacheOk(embed, hash, cache);
        assert hash(t) in cache;
      }
    }
  }

  /** The texts of a batch that the cache cannot answer, in order. */
  function Missing<T, H(==), V>(hash: T -> H, cache: map<H, V>, texts: seq<T>): seq<T> {
    if texts == [] then []
    else
      var n := |texts| - 1;
      Missing(hash, cache, texts[..n]) + if hash(texts[n]) in cache then [] else [texts[n]]
  }

  /** A batch that has been looked up and waits for the delegate. */
  datatype Batch<T, V> = Batch(texts: seq<T>, results: seq<V>, toGenerate: seq<T>, indices: seq<nat>)

  /** `looked` is the cache the batch was looked up in. */
  ghost predicate BatchOk<T, H, V>(hash: T -> H, looked: map<H, V>, b: Batch<T, V>) {
    && |b.results| == |b.texts| && |b.indices| == |b.toGenerate|
    && (forall i :: 0 <= i < |b.texts| && hash(b.texts[i]) in looked ==> b.results[i] == looked[hash(b.texts[i])])
    && (forall i :: 0 <= i < |b.texts| && hash(b.texts[i]) !in looked ==> i in b.indices)
    && (forall k :: 0 <= k < |b.indices| ==>
          b.indices[k] < |b.texts| && b.toGenerate[k] == b.texts[b.indices[k]] && hash(b.toGenerate[k]) !in looked)
  }

  lemma BatchInit<T, H, V>(hash: T -> H, looked: map<H, V>)
    ensures BatchOk(hash, looked, Batch([], [], [], []))
  {
  }

  lemma BatchAppend<T, H, V>(hash: T -> H, looked: map<H, V>, b: Batch<T, V>, text: T, result: V)
    requires BatchOk(hash, looked, b)
    requires hash(text) in looked ==> result == looked[hash(text)]
    ensures BatchOk(hash, looked,
              if hash(text) in looked then Batch(b.texts + [text], b.results + [result], b.toGenerate, b.indices)
              else Batch(b.texts + [text], b.results + [result], b.toGenerate + [text], b.indices + [|b.texts|]))
  {
    var indices' := b.indices + [|b.texts|];
    assert indices'[|b.indices|] == |b.texts|;
    assert forall i :: i in b.indices ==> i in indices';
  }

  class CachedEmbeddingGenerator<T(!new), H(==, !new), V(!new)> {
    const embed: T -> V
    const hash: T -> H
    var cache: map<H, V>
    var hits: nat
    var misses: nat

    ghost predicate Valid()
      reads this
    {
      CacheOk(embed, hash, cache)
    }

    constructor (embed: T -> V, hash: T -> H)
      ensures this.embed == embed && this.hash == hash
      ensures Valid() && cache == map[] && hits == misses == 0
    {
      this.embed, this.hash := embed, hash;
      cache, hits, misses := map[], 0, 0;
    }

    /** Up to the await: a cached answer, or a miss. */
    method LookUpOne(text: T) returns (r: Option<V>)
      modifies `hits, `misses
      ensures r == if hash(text) in cache then Some(cache[hash(text)]) else None
      ensures hits == old(hits) + (if r.Some? then 1 else 0) && misses == old(misses) + if r.Some? then 0 else 1
    {
      var h := hash(text);
      if h in cache {
        hits := hits + 1;
        return Some(cache[h]);
      }
      misses := misses + 1;
      return None;
    }

    /** After a miss, whatever happened to the cache since: the delegate's answer, now cached, or a
        timeout that caches nothing. */
    method FinishOne(text: T, timeout: bool) returns (r: Result<V, Error>)
      requires Valid()
      modifies `cache
      ensures Valid() && r == if timeout then Failure(TimedOut) else Success(embed(text))
      ensures cache == if timeout then old(cache) else old(cache)[hash(text) := embed(text)]
    {
      if timeout {
        return Failure(TimedOut);
      }
      cache := cache[hash(text) := embed(text)];
      return Success(embed(text));
    }

    /** Both with nothing else running at the await. */
    method GenerateEmbedding(text: T, timeout: bool) returns (r: Result<V, Error>)
      requires Valid()
      modifies this
      ensures Valid()
      ensures r == if hash(text) in old(cache) then Success(old(cache)[hash(text)])
                   else if timeout then Failure(TimedOut) else Success(embed(text))
      ensures cache == if hash(text) !in old(cache) && !timeout then old(cache)[hash(text) := embed(text)]
                       else old(cache)
      ensures hits == old(hits) + if hash(text) in old(cache) then 1 else 0
      ensures hits + misses == old(hits + misses) + 1
      ensures CollisionFree(embed, hash) && r.Success? ==> r.value == embed(text)
    {
      var cached := LookUpOne(text);
      if cached.Some? {
        return Success(cached.value);
      }
      r := FinishOne(text, timeout);
    }

    /** The lookup half of a batch, up to the call of the delegate. `blank` fills the open places. */
    method LookUp(texts: seq<T>, blank: V) returns (b: Batch<T, V>)
      modifies `hits, `misses
      ensures b.texts == texts && BatchOk(hash, cache, b)
      ensures b.toGenerate == Missing(hash, cache, texts)
      ensures misses == old(misses) + |b.toGenerate|
      ensures hits + misses == old(hits + misses) + |texts|
    {
      hide BatchOk;
      var results := seq(|texts|, i => blank);
      var toGenerate: seq<T>, indices: seq<nat> := [], [];
      BatchInit<T, H, V>(hash, cache);
      assert texts[..0] == [] && results[..0] == [];
      for idx := 0 to |texts|
        invariant |results| == |texts|
        invariant BatchOk(hash, cache, Batch(texts[..idx], results[..idx], toGenerate, indices))
        invariant toGenerate == Missing(hash, cache, texts[..idx])
        invariant misses == old(misses) + |toGenerate| && hits + misses == old(hits + misses) + idx
      {
        var h := hash(texts[idx]);
        ghost var before := Batch(texts[..idx], results[..idx], toGenerate, indices);
        assert texts[..idx + 1] == texts[..idx] + [texts[idx]];
        assert texts[..idx + 1][..idx] == texts[..idx];
        BatchAppend(hash, cache, before, texts[idx], if h in cache then cache[h] else results[idx]);
        if h in cache {
          hits := hits + 1;
          results := results[idx := cache[h]];
        } else {
          misses := misses + 1;
          toGenerate := toGenerate + [texts[idx]];
          indices := indices + [idx];
        }
        assert results[..idx + 1] == before.results + [results[idx]];
      }
      assert texts[..|texts|] == texts && results[..|texts|] == results;
      b := Batch(texts, results, toGenerate, indices);
    }

    /** The other half, whatever happened to the cache since the lookup: every open place gets the
        delegate's answer for its own text, and every answer is cached. */
    method Fill(b: Batch<T, V>, ghost looked: map<H, V>) returns (results: seq<V>)
      requires Valid() && BatchOk(hash, looked, b)
      modifies `cache
      ensures Valid()
      ensures |results| == |b.texts|
      ensures forall i :: 0 <= i < |b.texts| ==>
                results[i] == if hash(b.texts[i]) in looked then looked[hash(b.texts[i])] else embed(b.texts[i])
      ensures forall h :: h in cache <==> h in old(cache) || exists t :: t in b.toGenerate && hash(t) == h
      ensures forall h :: h in old(cache) && h in cache && cache[h] != old(cache)[h] ==>
                exists t :: t in b.toGenerate && hash(t) == h
    {
      var vals := seq(|b.toGenerate|, i requires 0 <= i < |b.toGenerate| => embed(b.toGenerate[i]));
      results := b.results;
      for localIdx := 0 to |vals|
        invariant Valid() && |results| == |b.texts|
        invariant forall i :: 0 <= i < |b.texts| && hash(b.texts[i]) in looked ==>
            results[i] == looked[hash(b.texts[i])]
        invariant forall k :: 0 <= k < localIdx ==> results[b.indices[k]] == embed(b.texts[b.indices[k]])
        invariant forall h :: h in cache <==>
            h in old(cache) || exists t :: t in b.toGenerate[..localIdx] && hash(t) == h
        invariant forall h :: h in old(cache) && h in cache && cache[h] != old(cache)[h] ==>
                    exists t :: t in b.toGenerate[..localIdx] && hash(t) == h
      {
        var originalIdx := b.indices[localIdx];
        results := results[originalIdx := vals[localIdx]];
        cache := cache[hash(b.toGenerate[localIdx]) := vals[localIdx]];
        assert b.toGenerate[..localIdx + 1] == b.toGenerate[..localIdx] + [b.toGenerate[localIdx]];
      }
      assert b.toGenerate[..|vals|] == b.toGenerate;
    }

    /** Both halves with nothing else running at the await: a batch is answered position by position, and
        a timeout leaves the cache as it was. */
    method GenerateEmbeddings(texts: seq<T>, blank: V, timeout: bool) returns (r: Result<seq<V>, Error>)
      requires Valid()
      modifies this
      ensures Valid()
      ensures hits + misses == old(hits + misses) + |texts|
      ensures misses == old(misses) + |Missing(hash, old(cache), texts)|
      ensures r.Failure? <==> timeout && Missing(hash, old(cache), texts) != []
      ensures r.Failure? ==> cache == old(cache)
      ensures r.Success? ==> |r.value| == |texts| && forall i :: 0 <= i < |texts| ==>
                r.value[i] == if hash(texts[i]) in old(cache) then old(cache)[hash(texts[i])] else embed(texts[i])
      ensures r.Success? && CollisionFree(embed, hash) ==>
                forall i :: 0 <= i < |texts| ==> r.value[i] == embed(texts[i])
    {
      var b := LookUp(texts, blank);
      if b.toGenerate == [] {
        return Success(b.results);
      }
      if timeout {
        return Failure(TimedOut);
      }
      var results := Fill(b, cache);
      return Success(results);
    }
  }
}
