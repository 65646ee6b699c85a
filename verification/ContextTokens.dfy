/**
 Token accounting of conversation contexts (pkg/core/context_manager.go).  The store
 stands for the context cache; other fields of a context play no part in the accounting.
 */
module ContextTokens {
  import opened Common

  datatype Item = Item(role: string, text: string, tokens: int)

  datatype Context = Context(id: string, content: seq<Item>, currentTokens: int, maxTokens: int)

  function Sum(items: seq<Item>): int {
    if items == [] then 0 else Sum(items[..|items| - 1]) + items[|items| - 1].tokens
  }

  predicate Consistent(c: Context) {
    c.currentTokens == Sum(c.content)
  }

  lemma {:induction false} SumConcat(a: seq<Item>, b: seq<Item>)
    ensures Sum(a + b) == Sum(a) + Sum(b)
    decreases |b|
  {
    if b == [] {
      assert a + b == a;
    } else {
      assert (a + b)[..|a + b| - 1] == a + b[..|b| - 1];
      SumConcat(a, b[..|b| - 1]);
    }
  }

  lemma SumSplit(items: seq<Item>, k: nat)
    requires k <= |items|
    ensures Sum(items) == Sum(items[..k]) + Sum(items[k..])
  {
    SumConcat(items[..k], items[k..]);
    assert items[..k] + items[k..] == items;
  }

  /** `k` starts the longest suffix that fits, or is the end when none does. */
  ghost predicate LongestFit(items: seq<Item>, max: int, k: nat) {
    && k <= |items|
    && (k < |items| ==> Sum(items[k..]) <= max)
    && forall j :: 0 <= j < k ==> Sum(items[j..]) > max
  }

  /** There is only one such suffix, and with a non-negative limit it does fit. */
  lemma LongestFitUnique(items: seq<Item>, max: int, k: nat, l: nat)
    requires LongestFit(items, max, k) && LongestFit(items, max, l)
    ensures k == l
    ensures max >= 0 ==> Sum(items[k..]) <= max
  {
    assert items[|items|..] == [];
  }

  /** The content an update leaves before truncation. */
  function Merged(c: Context, added: Option<seq<Item>>, replace: bool): seq<Item> {
    if added.None? then c.content else if replace then added.value else c.content + added.value
  }

  class ContextManager {
    var store: map<string, Context>

    /** Every stored context counts its tokens right. */
    ghost predicate Valid()
      reads this
    {
      forall id :: id in store ==> Consistent(store[id])
    }

    constructor ()
      ensures Valid() && store == map[]
    {
      store := map[];
    }

    /** Tokens are counted only when the caller gives no count, so the caller's count must be zero or right. */
    method CreateContext(c: Context) returns (r: Context)
      requires Valid()
      modifies this
      ensures r == Context(if c.id == "" then "test-id" else c.id, c.content,
                           if c.currentTokens == 0 then Sum(c.content) else c.currentTokens,
                           if c.maxTokens == 0 then 4000 else c.maxTokens)
      ensures store == old(store)[r.id := r]
      ensures Valid() <==> c.currentTokens == 0 || Consistent(c)
    {
      r := c;
      if r.id == "" {
        r := r.(id := "test-id");
      }
      if r.maxTokens == 0 {
        r := r.(maxTokens := 4000);
      }
      if r.currentTokens == 0 && |r.content| > 0 {
        var total := Recount(r.content);
        r := r.(currentTokens := total);
      }
      store := store[r.id := r];
      assert r.id in store && store[r.id] == r;
    }

    method Recount(items: seq<Item>) returns (total: int)
      ensures total == Sum(items)
    {
      total := 0;
      for i := 0 to |items|
        invariant total == Sum(items[..i])
      {
        assert items[..i + 1][..i] == items[..i];
        total := total + items[i].tokens;
      }
      assert items[..|items|] == items;
    }

    /** Appending item by item, the count following: a right count stays right. */
    method Append(base: Context, items: seq<Item>) returns (c: Context)
      requires Consistent(base)
      ensures c == base.(content := base.content + items, currentTokens := Sum(base.content + items))
    {
      c := base;
      for i := 0 to |items|
        invariant c == base.(content := base.content + items[..i], currentTokens := Sum(base.content) + Sum(items[..i]))
      {
        assert items[..i + 1] == items[..i] + [items[i]] && items[..i + 1][..i] == items[..i];
        assert base.content + items[..i] + [items[i]] == base.content + items[..i + 1];
        c := c.(content := c.content + [items[i]], currentTokens := c.currentTokens + items[i].tokens);
      }
      assert items[..|items|] == items;
      SumConcat(base.content, items);
    }

    /**
     Whatever the update does, the count stays right; and a truncating update that
     finds too many tokens removes `dropped` items, leaving exactly the longest suffix
     that fits.
     */
    method UpdateContext(id: string, added: Option<seq<Item>>, replace: bool, truncate: bool)
      returns (r: Option<Context>, ghost dropped: nat)
      requires Valid()
      modifies this
      ensures Valid()
      ensures id !in old(store) ==> r == None && store == old(store)
      ensures id in old(store) ==>
                && r.Some? && store == old(store)[id := r.value]
                && Consistent(r.value)
                && r.value.id == old(store)[id].id && r.value.maxTokens == old(store)[id].maxTokens
                && var all := Merged(old(store)[id], added, replace);
                   if truncate && Sum(all) > r.value.maxTokens then
                     LongestFit(all, r.value.maxTokens, dropped) && r.value.content == all[dropped..]
                   else r.value.content == all
    {
      dropped := 0;
      if id !in store {
        return None, 0;
      }
      var c := store[id];
      if added.Some? {
        if replace {
          var total := Recount(added.value);
          c := c.(content := added.value, currentTokens := total);
        } else {
          c := Append(c, added.value);
        }
      }
      if truncate && c.currentTokens > c.maxTokens {
        var removeCount, removed := OldestToRemove(c);
        SumSplit(c.content, removeCount);
        c := c.(content := c.content[removeCount..], currentTokens := c.currentTokens - removed);
        dropped := removeCount;
      }
      store := store[id := c];
      return Some(c), dropped;
    }

    /** The truncation loop: remove from the front until enough tokens are gone. */
    method OldestToRemove(c: Context) returns (k: nat, removed: int)
      requires Consistent(c) && c.currentTokens > c.maxTokens
      ensures LongestFit(c.content, c.maxTokens, k) && removed == Sum(c.content[..k])
    {
      var items := c.content;
      var tokensToRemove := c.currentTokens - c.maxTokens;
      k, removed := 0, 0;
      assert items[0..] == items;
      while k < |items| && removed < tokensToRemove
        invariant k <= |items| && removed == Sum(items[..k])
        invariant forall j :: 0 <= j < k ==> Sum(items[j..]) > c.maxTokens
      {
        SumSplit(items, k);
        assert items[..k + 1][..k] == items[..k];
        removed := removed + items[k].tokens;
        k := k + 1;
      }
      SumSplit(items, k);
    }
  }
}
