/**
 * `load_wikipedia_with_cache`: a title-keyed cache of loaded pages in front of a
 * page loader. The map field stands for the contents of the cache file, which the
 * source reads at the start of every call and rewrites in full after every miss.
 */
module WikiCache {
  import opened Wrappers
  import opened Docs

  /** An exception raised by the page loader; it reaches the caller unchanged. */
  datatype LoadError = LoadError(reason: string)

  type Loader = string -> Result<seq<Document>, LoadError>

  class PageCache {
    /** Title to the documents stored for it, in their original order. */
    var entries: map<string, seq<Document>>
    /** How many times the loader has been invoked through this cache. */
    ghost var loaderCalls: nat
    /** The page loader, for one title at a time. */
    const loader: Loader

    /**
     * A cache over the stored entries; a missing cache file is the empty map.
     */
    constructor (stored: map<string, seq<Document>>, loader: Loader)
      ensures entries == stored && loaderCalls == 0 && this.loader == loader
    {
      entries := stored;
      loaderCalls := 0;
      this.loader := loader;
    }

    /**
     * On a hit the stored documents come back in their stored order, without a
     * call to the loader and with the cache unchanged. On a miss the loader is
     * called exactly once and its answer is returned; documents it loaded are
     * stored under the title, every other title keeping its entry, while a loader
     * error leaves the cache as it was.
     */
    method LoadWithCache(title: string) returns (result: Result<seq<Document>, LoadError>)
      modifies this
      ensures title in old(entries) ==>
                && result == Success(old(entries)[title])
                && entries == old(entries)
                && loaderCalls == old(loaderCalls)
      ensures title !in old(entries) ==>
                && result == loader(title)
                && loaderCalls == old(loaderCalls) + 1
                && entries == (if result.Success? then old(entries)[title := result.value]
                               else old(entries))
    {
      if title in entries {
        return Success(entries[title]);
      }
      loaderCalls := loaderCalls + 1;
      result := loader(title);
      if result.Failure? {
        return;
      }
      entries := entries[title := result.value];
    }
  }

  /**
   * Loading the same title twice on any cache. A stored title is answered twice
   * from the cache without a loader call. Otherwise the first call loads; once that
   * succeeds, the second call returns the same documents with no second load. After
   * a failure the second call loads again. It returns the loader's answer for the
   * title, and that answer repeats the first failure only because the loader is
   * modelled as a function of the title.
   */
  method SecondLoadIsHit(cache: PageCache, title: string)
    returns (first: Result<seq<Document>, LoadError>, second: Result<seq<Document>, LoadError>)
    modifies cache
    ensures title in old(cache.entries) ==>
              && first == Success(old(cache.entries)[title]) && second == first
              && cache.loaderCalls == old(cache.loaderCalls)
    ensures title !in old(cache.entries) ==> first == cache.loader(title)
    ensures title !in old(cache.entries) && first.Success? ==>
              second == first && cache.loaderCalls == old(cache.loaderCalls) + 1
    ensures title !in old(cache.entries) && first.Failure? ==>
              second == cache.loader(title) && cache.loaderCalls == old(cache.loaderCalls) + 2
  {
    first := cache.LoadWithCache(title);
    second := cache.LoadWithCache(title);
  }
}
