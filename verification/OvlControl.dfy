/**
 A slot in memory: its fields, the linked list of its tokens, and its bytes.  Each method is
 one section under the mutex, and does what the protocol's step says.
 */
module OvlControl {
  import opened Basics
  import opened OvlSlot

  class Control {
    const translated: bool
    const base: array<byte>
    var tokens: Token?
    var generation: nat
    var active: bool
    var operation: bool
    var pending: bool
    ghost var chain: seq<Token>
    ghost var state: SoundSlot

    /** The list, from `tokens` through the tokens' `next`. */
    ghost predicate Linked()
      reads this`tokens, this`chain, chain
    {
      && tokens == At(0) && (forall i, j :: 0 <= i < j < |chain| ==> chain[i] != chain[j])
      && (forall i :: 0 <= i < |chain| ==> chain[i].next == At(i + 1))
    }

    ghost function At(i: nat): (t: Token?)
      reads this`chain
    {
      if i < |chain| then chain[i] else null
    }

    /** The tokens in the list are out, of this generation. */
    ghost predicate Out()
      reads this`generation, this`chain, chain
    {
      forall t <- chain :: t.held && t.generation == generation
    }

    ghost predicate Valid()
      reads this, chain, base
    {
      Linked() && Out() && Shown()
    }

    /** The protocol's slot is what the fields say. */
    ghost predicate Shown()
      reads this, base
    {
      && (operation <==> !state.phase.Free?)
      && state == Slot(active, state.phase, generation, Leases(chain, generation, base[..]), pending, translated, base[..], state.admitted)
    }

    constructor (translated: bool, bytes: nat)
      ensures Valid() && base.Length == bytes && fresh(base) && chain == [] && this.translated == translated
      ensures state == Empty(translated, base[..])
    {
      this.translated := translated;
      base := new byte[bytes](_ => 0);
      tokens, generation, active, operation, pending, chain := null, 0, false, false, false, [];
      state := Empty(translated, seq(bytes, _ => 0));
    }

    /** ovl_acquire. */
    method Acquire(token: Token, contextOk: bool) returns (r: Result)
      requires Valid() && (token.held <==> token in chain)
      modifies this, token
      ensures Valid() && r == Report(old(state), OvlSlot.Acquire(token, contextOk)) && state == Next(old(state), OvlSlot.Acquire(token, contextOk))
    {
      r := Decide(token, contextOk);
      if r == Done { Lend(token, OvlSlot.Acquire(token, contextOk)); }
    }

    /** Whether a token can be had. */
    method Decide(token: Token, contextOk: bool) returns (r: Result)
      requires Valid() && (token.held <==> token in chain)
      ensures r == Report(state, OvlSlot.Acquire(token, contextOk)) && (r == Done ==> token !in chain)
    {
      LeasesOf(chain, generation, base[..], token);
      r := if operation || token.held then Busy
           else if !active then Missing
           else if translated && !contextOk then BadContext
           else Done;
    }

    method Lend(token: Token, ghost e: Event)
      requires Valid() && token !in chain && e.Acquire? && e.token == token && Report(state, e) == Done
      modifies this`tokens, this`chain, this`state, token
      ensures Valid() && state == Next(old(state), e)
    {
      StepSound(state, e);
      ghost var next: SoundSlot := Next(state, e);
      Added(chain, token, generation, base[..]);
      Push(token);
      state := next;
    }

    /** The token goes to the front of the list. */
    method Push(token: Token)
      requires Linked() && Out() && token !in chain
      modifies this`tokens, this`chain, token
      ensures Linked() && Out() && chain == [token] + old(chain)
    {
      token.held, token.next, token.generation := true, tokens, generation;
      tokens, chain := token, [token] + chain;
    }

    /** ovl_release. */
    method Release(token: Token) returns (r: Result)
      requires Valid() && (token.held <==> token in chain)
      modifies this, token, chain
      ensures Valid() && r == Report(old(state), OvlSlot.Release(token)) && state == Next(old(state), OvlSlot.Release(token))
      ensures r == Done ==> !token.held && token.next == null && token !in chain
    {
      LeasesOf(chain, generation, base[..], token);
      ghost var k: nat;
      var link;
      link, k := Find(token);
      if operation {
        r := Busy;
      } else if !token.held || token.generation != generation {
        r := Invalid;
      } else {
        Return(token, link, k, OvlSlot.Release(token));
        r := Done;
      }
    }

    /** The walk along the list, to the token or past the end; `link` is the token before. */
    method Find(token: Token) returns (link: Token?, ghost k: nat)
      requires Linked()
      ensures k <= |chain| && link == (if k > 0 then chain[k - 1] else null)
      ensures token in chain ==> k < |chain| && chain[k] == token
    {
      var cur: Token? := tokens;
      link, k := null, 0;
      while cur != null && cur != token
        invariant k <= |chain| && cur == At(k) && link == (if k > 0 then chain[k - 1] else null)
        invariant token !in chain[..k]
        decreases |chain| - k
      {
        link, cur, k := cur, cur.next, k + 1;
      }
      assert chain == chain[..k] + chain[k..];
    }

    method Return(token: Token, link: Token?, ghost k: nat, ghost e: Event)
      requires Valid() && k < |chain| && chain[k] == token && link == (if k > 0 then chain[k - 1] else null)
      requires e.Release? && e.token == token && Report(state, e) == Done
      modifies this`tokens, this`chain, this`state, token, chain
      ensures Valid() && state == Next(old(state), e) && !token.held && token.next == null && token !in chain
    {
      ghost var next := Without(e, k);
      Unlink(token, link, k);
      state := next;
    }

    /** The slot when the `k`th token is returned. */
    ghost function Without(e: Event, k: nat): (s: SoundSlot)
      requires Valid() && k < |chain| && e.Release? && e.token == chain[k] && Report(state, e) == Done
      reads this, chain, base
      ensures s == Next(state, e)
      ensures s == Slot(active, state.phase, generation, Leases(chain[..k] + chain[k + 1..], generation, base[..]), pending, translated, base[..], state.admitted)
      ensures operation <==> !s.phase.Free?
    {
      Returned(state, e, chain, k, generation, base[..]);
      StepSound(state, e);
      Next(state, e)
    }

    /** The token is taken out of the list, and zeroed. */
    method Unlink(token: Token, link: Token?, ghost k: nat)
      requires Linked() && Out() && k < |chain| && chain[k] == token && link == (if k > 0 then chain[k - 1] else null)
      modifies this`tokens, this`chain, token, chain
      ensures Linked() && Out() && chain == old(chain)[..k] + old(chain)[k + 1..]
      ensures !token.held && token.next == null && token !in chain
    {
      if link == null { PopFront(token); } else { Bypass(token, link, k); }
      Clear(token);
    }

    method Clear(token: Token)
      requires Linked() && Out() && token !in chain
      modifies token
      ensures Linked() && Out() && !token.held && token.next == null
    {
      token.held, token.next, token.generation := false, null, 0;
    }

    method PopFront(token: Token)
      requires Linked() && Out() && chain != [] && chain[0] == token
      modifies this`tokens, this`chain
      ensures Linked() && Out() && chain == old(chain)[1..] && token !in chain
    {
      tokens, chain := token.next, chain[1..];
    }

    method Bypass(token: Token, link: Token, ghost k: nat)
      requires Linked() && Out() && 0 < k < |chain| && chain[k] == token && link == chain[k - 1]
      modifies this`chain, link`next
      ensures Linked() && Out() && chain == old(chain)[..k] + old(chain)[k + 1..] && token !in chain
    {
      Kept(chain, k);
      ghost var c := chain;
      assert forall i :: 0 <= i < |c| && i != k - 1 ==> c[i] != link;
      link.next := token.next;
      assert Out();
      chain := c[..k] + c[k + 1..];
      assert Out() by {
        forall t <- chain
          ensures t.held && t.generation == generation
        {
          assert t in c;
        }
      }
      forall i | 0 <= i < |chain|
        ensures chain[i].next == At(i + 1)
      {
        assert chain[i] == if i < k then c[i] else c[i + 1];
      }
    }

    // -------------------------------------------------------------- operations

    /** claim. */
    method Claim(load: bool) returns (r: Result)
      requires Valid()
      modifies this
      ensures Valid() && r == Report(old(state), ClaimFor(load)) && state == Next(old(state), ClaimFor(load)) && chain == old(chain)
    {
      NoLeases(chain, generation, base[..]);
      StepSound(state, ClaimFor(load));
      ghost var next: SoundSlot := Next(state, ClaimFor(load));
      r := if operation || tokens != null || (load && pending) then Busy
           else if load && generation == MAX_GENERATION then Overflow
           else Done;
      if r == Done {
        operation := true;
        state := next;
      }
    }

    /** The point of no return of a load. */
    ghost method BeginWriting()
      requires Valid() && state.phase.Loading?
      modifies this`state
      ensures Valid() && state == Next(old(state), Begin)
    {
      StepSound(state, Begin);
      state := Next(state, Begin);
    }

    /** With the operation owned, no token is out. */
    lemma Alone()
      requires Valid() && operation
      ensures chain == []
    {
      NoLeases(chain, generation, base[..]);
    }

    /** The last section of a load: what it leaves behind depends on how far it came. */
    method Finish(ok: bool, destructive: bool, cleanupPending: bool)
      requires Valid() && operation && (if destructive then state.phase.Writing? else state.phase.Loading?)
      requires (ok ==> destructive) && (cleanupPending ==> destructive && !ok && translated)
      modifies this
      ensures Valid() && state == Next(old(state), EndFor(ok, destructive, cleanupPending)) && chain == old(chain)
    {
      Alone();
      StepSound(state, EndFor(ok, destructive, cleanupPending));
      ghost var next: SoundSlot := Next(state, EndFor(ok, destructive, cleanupPending));
      if ok {
        generation, active := generation + 1, true;
      } else if destructive {
        active := false;
      }
      pending, operation := cleanupPending, false;
      state := next;
    }

    /** ovl_unload; a translated slot's retirement may fail, and be tried again. */
    method Unload() returns (r: Result, retired: bool)
      requires Valid()
      modifies this
      ensures Valid() && r == Report(old(state), ClaimUnload) && (!translated ==> retired)
      ensures state == if r == Done then Next(Next(old(state), ClaimUnload), Retire(retired)) else old(state)
    {
      r := Claim(false);
      retired := true;
      if r == Done {
        if translated { retired := *; }
        Alone();
        StepSound(state, Retire(retired));
        ghost var next: SoundSlot := Next(state, Retire(retired));
        active, pending, operation := false, !retired, false;
        state := next;
      }
    }
  }

  /** The places of the tokens in a list without one. */
  lemma Kept(c: seq<Token>, k: nat)
    requires k < |c| && forall i, j :: 0 <= i < j < |c| ==> c[i] != c[j]
    ensures var r := c[..k] + c[k + 1..];
            && (forall i :: 0 <= i < |r| ==> r[i] == if i < k then c[i] else c[i + 1])
            && c[k] !in r && (forall i, j :: 0 <= i < j < |r| ==> r[i] != r[j]) && forall t <- r :: t in c
  {
    var r := c[..k] + c[k + 1..];
    forall i | 0 <= i < |r|
      ensures r[i] in c && r[i] == if i < k then c[i] else c[i + 1]
    {
    }
  }

  /** What the tokens of a list stand for. */
  ghost function Leases(chain: seq<Token>, generation: nat, image: seq<byte>): (m: map<Token, Lease>)
  {
    map t | t in chain :: Lease(generation, image)
  }

  lemma LeasesOf(chain: seq<Token>, generation: nat, image: seq<byte>, token: Token)
    ensures token in Leases(chain, generation, image) <==> token in chain
  {
  }

  lemma NoLeases(chain: seq<Token>, generation: nat, image: seq<byte>)
    ensures Leases(chain, generation, image) == map[] <==> chain == []
  {
    if chain != [] { assert chain[0] in Leases(chain, generation, image); }
  }

  ghost function ClaimFor(load: bool): (e: Event)
  {
    if load then ClaimLoad else ClaimUnload
  }

  ghost function EndFor(ok: bool, destructive: bool, cleanupPending: bool): (e: Event)
  {
    if ok then Admit else if destructive then FailLate(!cleanupPending) else FailEarly
  }

  lemma Added(chain: seq<Token>, token: Token, generation: nat, image: seq<byte>)
    ensures Leases([token] + chain, generation, image) == Leases(chain, generation, image)[token := Lease(generation, image)]
  {
  }

  /** What returning one of them does. */
  lemma Returned(s: SoundSlot, e: Event, chain: seq<Token>, k: nat, generation: nat, image: seq<byte>)
    requires s.tokens == Leases(chain, generation, image) && k < |chain|
    requires forall i, j :: 0 <= i < j < |chain| ==> chain[i] != chain[j]
    requires e.Release? && e.token == chain[k] && Report(s, e) == Done
    ensures Next(s, e) == s.(tokens := Leases(chain[..k] + chain[k + 1..], generation, image))
  {
    Removed(chain, k, generation, image);
  }

  /** Without one of them. */
  lemma Removed(chain: seq<Token>, k: nat, generation: nat, image: seq<byte>)
    requires k < |chain| && forall i, j :: 0 <= i < j < |chain| ==> chain[i] != chain[j]
    ensures Leases(chain[..k] + chain[k + 1..], generation, image) == Leases(chain, generation, image) - {chain[k]}
  {
    var r := chain[..k] + chain[k + 1..];
    forall t: Token
      ensures t in r <==> t in chain && t != chain[k]
    {
      if t in chain && t != chain[k] {
        var i :| 0 <= i < |chain| && chain[i] == t;
        assert r[if i < k then i else i - 1] == t;
      }
    }
  }
}
