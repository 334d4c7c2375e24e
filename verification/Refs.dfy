/** Short refs for messages, minted per request. */
module Refs {
  import opened Numerals
  import opened Wrappers

  datatype Loc = Loc(folder: string, uid: nat)

  /** `m1`, `m2`, ... */
  function Ref(n: nat): string {
    "m" + Decimal(n)
  }

  lemma RefIsInjective(m: nat, n: nat)
    ensures Ref(m) == Ref(n) <==> m == n
  {
    DecimalIsInjective(m, n);
    assert Ref(m)[1..] == Decimal(m) && Ref(n)[1..] == Decimal(n);
  }

  // ----- The table as the list of locations in minting order -----

  predicate Distinct(minted: seq<Loc>) {
    forall i, j :: 0 <= i < j < |minted| ==> minted[i] != minted[j]
  }

  function Minted(minted: seq<Loc>, loc: Loc): seq<Loc> {
    if loc in minted then minted else minted + [loc]
  }

  function Position(minted: seq<Loc>, loc: Loc): (n: nat)
    requires loc in minted
    ensures n < |minted| && minted[n] == loc
  {
    if minted[0] == loc then 0 else 1 + Position(minted[1..], loc)
  }

  /** The ref that stands for a location once it is minted. */
  function RefOf(minted: seq<Loc>, loc: Loc): string {
    if loc in minted then Ref(Position(minted, loc) + 1) else Ref(|minted| + 1)
  }

  /** The location a ref stands for. */
  function Resolve(minted: seq<Loc>, r: string): Option<Loc> {
    if minted == [] then None
    else if r == Ref(|minted|) then Some(minted[|minted| - 1])
    else Resolve(minted[..|minted| - 1], r)
  }

  predicate Names(minted: seq<Loc>, i: int, r: string, loc: Loc) {
    0 <= i < |minted| && r == Ref(i + 1) && minted[i] == loc
  }

  /** Refs `m1` to `mN` resolve to the N locations in minting order, and nothing else resolves. */
  lemma {:induction false} ResolveIff(minted: seq<Loc>, r: string, loc: Loc)
    ensures Resolve(minted, r) == Some(loc) <==> exists i :: Names(minted, i, r, loc)
  {
    if minted != [] {
      var n := |minted| - 1;
      var front := minted[..n];
      ResolveIff(front, r, loc);
      assert forall i :: Names(front, i, r, loc) ==> Names(minted, i, r, loc);
      forall i | Names(minted, i, r, loc) ensures if r == Ref(n + 1) then i == n else Names(front, i, r, loc) {
        RefIsInjective(i + 1, n + 1);
      }
      if r == Ref(n + 1) && loc == minted[n] {
        assert Names(minted, n, r, loc);
      }
    }
  }

  lemma ResolveLast(minted: seq<Loc>, loc: Loc, r: string)
    ensures Resolve(minted + [loc], r) == if r == Ref(|minted| + 1) then Some(loc) else Resolve(minted, r)
  {
    hide Ref;
    assert (minted + [loc])[..|minted|] == minted;
  }

  lemma {:induction false} PositionInLonger(minted: seq<Loc>, loc: Loc, l: Loc)
    requires loc !in minted
    ensures l in minted ==> Position(minted + [loc], l) == Position(minted, l)
    ensures Position(minted + [loc], loc) == |minted|
  {
    if minted != [] {
      assert (minted + [loc])[1..] == minted[1..] + [loc];
      assert minted == [minted[0]] + minted[1..];
      PositionInLonger(minted[1..], loc, l);
    }
  }

  lemma ResolveMinted(minted: seq<Loc>, loc: Loc)
    requires loc in minted
    ensures Resolve(minted, RefOf(minted, loc)) == Some(loc)
  {
    hide Ref, Resolve;
    ResolveIff(minted, RefOf(minted, loc), loc);
    assert Names(minted, Position(minted, loc), RefOf(minted, loc), loc);
  }

  lemma ResolvedIsEarlier(minted: seq<Loc>, r: string)
    requires Resolve(minted, r).Some?
    ensures r != Ref(|minted| + 1)
  {
    hide Ref;
    if r == Ref(|minted| + 1) {
      RefIsNew(minted, |minted| + 1);
    }
  }

  lemma {:induction false} RefIsNew(minted: seq<Loc>, n: nat)
    requires n > |minted|
    ensures Resolve(minted, Ref(n)).None?
  {
    if minted != [] {
      RefIsInjective(|minted|, n);
      RefIsNew(minted[..|minted| - 1], n);
    }
  }

  /** Minting is undone by resolving, and no ref changes its meaning later. */
  lemma MintThenResolve(minted: seq<Loc>, loc: Loc, r: string)
    requires Distinct(minted)
    ensures Distinct(Minted(minted, loc))
    ensures Resolve(Minted(minted, loc), RefOf(minted, loc)) == Some(loc)
    ensures Resolve(minted, r).Some? ==> Resolve(Minted(minted, loc), r) == Resolve(minted, r)
    ensures RefOf(Minted(minted, loc), loc) == RefOf(minted, loc)
  {
    hide Ref, Resolve;
    if loc in minted {
      ResolveMinted(minted, loc);
    } else {
      ResolveLast(minted, loc, RefOf(minted, loc));
      ResolveLast(minted, loc, r);
      PositionInLonger(minted, loc, loc);
      if Resolve(minted, r).Some? {
        ResolvedIsEarlier(minted, r);
      }
    }
  }

  /** Refs and minted locations are in bijection. */
  lemma RefsAreABijection(minted: seq<Loc>, a: Loc, b: Loc)
    requires Distinct(minted) && a in minted && b in minted
    ensures RefOf(minted, a) == RefOf(minted, b) <==> a == b
    ensures Resolve(minted, RefOf(minted, a)) == Some(a)
  {
    RefIsInjective(Position(minted, a) + 1, Position(minted, b) + 1);
    ResolveMinted(minted, a);
  }

  // ----- The two hash maps -----

  /** The two maps say the same as the list. */
  ghost predicate Agree(byRef: map<string, Loc>, byLoc: map<Loc, string>, minted: seq<Loc>) {
    && Distinct(minted)
    && |byRef| == |minted|
    && (forall loc :: loc in byLoc <==> loc in minted)
    && (forall loc :: loc in minted ==> byLoc[loc] == RefOf(minted, loc))
    && (forall r :: r in byRef <==> Resolve(minted, r).Some?)
    && forall r :: r in byRef ==> Resolve(minted, r) == Some(byRef[r])
  }

  lemma MintedTable(minted: seq<Loc>, loc: Loc)
    requires loc !in minted
    ensures forall l :: l in minted ==> RefOf(minted + [loc], l) == RefOf(minted, l)
    ensures RefOf(minted + [loc], loc) == Ref(|minted| + 1)
    ensures forall r :: Resolve(minted + [loc], r) == if r == Ref(|minted| + 1) then Some(loc) else Resolve(minted, r)
  {
    hide Ref, Resolve, Position;
    PositionInLonger(minted, loc, loc);
    forall l | l in minted ensures RefOf(minted + [loc], l) == RefOf(minted, l) {
      PositionInLonger(minted, loc, l);
    }
    forall r ensures Resolve(minted + [loc], r) == if r == Ref(|minted| + 1) then Some(loc) else Resolve(minted, r) {
      ResolveLast(minted, loc, r);
    }
  }

  lemma AgreeStep(byRef: map<string, Loc>, byLoc: map<Loc, string>, minted: seq<Loc>, loc: Loc)
    requires Agree(byRef, byLoc, minted) && loc !in minted
    ensures var r := Ref(|minted| + 1); Agree(byRef[r := loc], byLoc[loc := r], minted + [loc])
  {
    var r := Ref(|minted| + 1);
    RefIsNew(minted, |minted| + 1);
    MintedTable(minted, loc);
    hide Resolve, Ref, RefOf;
  }

  class RefTable {
    var byRef: map<string, Loc>
    var byLoc: map<Loc, string>
    ghost var minted: seq<Loc>

    ghost predicate Valid()
      reads this
    {
      Agree(byRef, byLoc, minted)
    }

    constructor ()
      ensures Valid() && minted == []
    {
      byRef, byLoc, minted := map[], map[], [];
    }

    method Mint(loc: Loc) returns (r: string)
      requires Valid()
      modifies this
      ensures Valid() && minted == Minted(old(minted), loc)
      ensures r == RefOf(old(minted), loc)
    {
      if loc in byLoc {
        return byLoc[loc];
      }
      r := "m" + Decimal(|byRef| + 1);
      AgreeStep(byRef, byLoc, minted, loc);
      byRef := byRef[r := loc];
      byLoc := byLoc[loc := r];
      minted := minted + [loc];
    }

    method Find(r: string) returns (loc: Option<Loc>)
      requires Valid()
      ensures loc == Resolve(minted, r)
    {
      if r in byRef {
        return Some(byRef[r]);
      }
      return None;
    }
  }
}
