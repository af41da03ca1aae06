/**
 * The deck tree: each deck has a name, a list of new cards, a list of due cards and
 * an ordered list of subdecks, and knows its parent. Decks are created lazily along
 * a topic path, and a deck's topic path is read back through its parent links.
 */
module Decks {
  import opened Wrappers
  import opened Text
  import opened Cards

  /** The first index in `ds` of a deck named `name`, or `|ds|` when there is none. */
  function FindChild(ds: seq<Deck>, name: string): (i: nat)
    reads ds`deckName
    ensures i <= |ds| && (i < |ds| ==> ds[i].deckName == name)
    ensures forall k :: 0 <= k < i ==> ds[k].deckName != name
  {
    if ds == [] then 0
    else if ds[0].deckName == name then 0
    else 1 + FindChild(ds[1..], name)
  }

  /** Some deck in `ds` is named `name`. */
  predicate HasChildNamed(ds: seq<Deck>, name: string)
    reads ds`deckName
  {
    exists k :: 0 <= k < |ds| && ds[k].deckName == name
  }

  /** `a` is an initial segment of `b`. */
  ghost predicate PathPrefix(a: seq<string>, b: seq<string>) {
    |a| <= |b| && b[..|a|] == a
  }

  /** The deck lies on `target` and has at most one subdeck. */
  ghost predicate OnPath(x: Deck, target: seq<string>)
    reads x`Path, x`subdecks
  {
    PathPrefix(x.Path, target) && |x.subdecks| <= 1
  }

  /** The decks of a sequence, as a set. */
  ghost function Elements(s: seq<Deck>): set<Deck> {
    set x | x in s
  }

  /** A sequence has at most as many distinct decks as it is long. */
  lemma {:induction false} ElementsBounded(s: seq<Deck>)
    ensures |Elements(s)| <= |s|
  {
    if s != [] {
      ElementsBounded(s[1..]);
      assert Elements(s) == {s[0]} + Elements(s[1..]);
    }
  }

  /** A subset is no larger than the set containing it. */
  lemma {:induction false} SubsetBounded(a: set<Deck>, b: set<Deck>)
    requires a <= b
    ensures |a| <= |b|
    decreases |a|
  {
    if a != {} {
      var x :| x in a;
      SubsetBounded(a - {x}, b - {x});
    }
  }

  /** A footprint grown by the decks of `created` gained at most `|created|` decks:
      with the `|created| <= |topicPath|` of `GetOrCreateDeck`, a path creates at most
      one deck per name. */
  lemma GrowthBounded(before: set<Deck>, after: set<Deck>, created: seq<Deck>)
    requires after == before + Elements(created)
    ensures |after - before| <= |created|
  {
    SubsetBounded(after - before, Elements(created));
    ElementsBounded(created);
  }

  /** `x` holds no card, lies on `target` at depth `depth` and has at most one
      subdeck. */
  ghost predicate CreatedOnPath(x: Deck, target: seq<string>, depth: int)
    reads x`newFlashcards, x`dueFlashcards, x`Path, x`subdecks
  {
    x.newFlashcards == [] && x.dueFlashcards == [] && OnPath(x, target) && |x.Path| == depth
  }

  /** The decks `created` form a chain down to the end of `target`, shallowest first:
      each is empty, lies on `target` at the depth of its place and has at most one
      subdeck. */
  ghost predicate CreatedAlong(created: seq<Deck>, target: seq<string>)
    reads Elements(created)`newFlashcards, Elements(created)`dueFlashcards
    reads Elements(created)`Path, Elements(created)`subdecks
  {
    forall k :: 0 <= k < |created| ==> CreatedOnPath(created[k], target, |target| - |created| + k + 1)
  }

  /** Between the two states `attach` gained the first of the decks `created` as its
      last subdeck, just above the chain they form down to the end of `target`; when
      nothing was created, its subdecks did not change. */
  twostate predicate GainedFirst(attach: Deck, new created: seq<Deck>, new target: seq<string>)
    reads attach`Path, attach`subdecks
  {
    |attach.Path| + |created| == |target|
    && (created == [] ==> attach.subdecks == old(attach.subdecks))
    && (created != [] ==> attach.subdecks == old(attach.subdecks) + [created[0]])
  }

  function Reverse(s: seq<string>): (r: seq<string>)
    ensures |r| == |s| && forall k :: 0 <= k < |s| ==> r[k] == s[|s| - 1 - k]
  {
    if s == [] then [] else Reverse(s[1..]) + [s[0]]
  }

  class Deck {
    var deckName: string
    var newFlashcards: seq<Card>
    var dueFlashcards: seq<Card>
    var subdecks: seq<Deck>
    var parent: Deck?

    /** The decks of the subtree rooted here. */
    ghost var Repr: set<Deck>
    /** The names of the decks from the root, the root excluded, down to this one. */
    ghost var Path: seq<string>
    /** The decks from the root down to the parent of this one. */
    ghost var Ancestors: set<Deck>

    /** Every subdeck names this deck as its parent, extends its path by its own name,
        owns a subtree inside this one that no other subdeck shares, and is itself
        well formed. Card lists are not part of it, so changing them keeps it. */
    ghost predicate Valid()
      reads this`Repr, this`subdecks, this`Path, this`Ancestors
      reads Repr`Repr, Repr`subdecks, Repr`parent, Repr`Path, Repr`deckName, Repr`Ancestors
      decreases Repr
    {
      this in Repr
      && (forall d :: d in subdecks ==>
            d in Repr && d.Repr <= Repr && this !in d.Repr
            && d.parent == this && d.Path == Path + [d.deckName] && d.Ancestors == Ancestors + {this}
            && d.Valid())
      && (forall d, e :: d in subdecks && e in subdecks && d != e ==> d.Repr !! e.Repr)
    }

    /** The parent links lead to a root, and the path is the names along them. None of
        the fields read here changes once a deck is constructed. */
    ghost predicate Linked()
      reads this`parent, this`Path, this`deckName, this`Ancestors
      reads Ancestors`parent, Ancestors`Path, Ancestors`deckName, Ancestors`Ancestors
      decreases |Path|
    {
      if parent == null then Path == [] && Ancestors == {}
      else
        parent in Ancestors && Ancestors == parent.Ancestors + {parent}
        && Path == parent.Path + [deckName] && parent.Linked()
    }

    constructor (deckName: string, parent: Deck?)
      ensures this.deckName == deckName && this.parent == parent
      ensures newFlashcards == [] && dueFlashcards == [] && subdecks == []
      ensures Repr == {this}
      ensures parent == null ==> Path == [] && Ancestors == {}
      ensures parent != null ==> Path == parent.Path + [deckName] && Ancestors == parent.Ancestors + {parent}
      ensures Valid()
      ensures parent == null || parent.Linked() ==> Linked()
    {
      this.deckName := deckName;
      this.newFlashcards := [];
      this.dueFlashcards := [];
      this.subdecks := [];
      this.parent := parent;
      Repr := {this};
      if parent == null {
        Path := [];
        Ancestors := {};
      } else {
        Path := parent.Path + [deckName];
        Ancestors := parent.Ancestors + {parent};
      }
    }

    /** `isRootDeck`. */
    predicate IsRootDeck()
      reads this`parent
    {
      parent == null
    }

    lemma RootHasEmptyPath()
      requires Linked()
      ensures IsRootDeck() <==> Path == []
    {
    }

    /** A subdeck of a linked deck is linked. */
    lemma SubdeckLinked(d: Deck)
      requires Valid() && Linked() && d in subdecks
      ensures d.Linked()
    {
    }

    /* Counting cards. */

    /** The cards of the selected lists of this deck alone. */
    function LocalCount(cardListType: CardListType): nat
      reads this`newFlashcards, this`dueFlashcards
    {
      (if cardListType == NewCard || cardListType == All then |newFlashcards| else 0)
      + (if cardListType == DueCard || cardListType == All then |dueFlashcards| else 0)
    }

    /** The number of cards of the selected lists, in this deck and, when asked for,
        in all its subdecks. */
    ghost function Count(cardListType: CardListType, includeSubdeckCounts: bool): nat
      requires Valid()
      reads this, Repr
      decreases Repr, |subdecks| + 1
    {
      LocalCount(cardListType) + (if includeSubdeckCounts then SubdeckCount(0, cardListType) else 0)
    }

    /** The counts, subdecks included, of the subdecks from index `i` on. */
    ghost function SubdeckCount(i: nat, cardListType: CardListType): nat
      requires Valid() && i <= |subdecks|
      reads this, Repr
      decreases Repr, |subdecks| - i
    {
      if i == |subdecks| then 0
      else subdecks[i].Count(cardListType, true) + SubdeckCount(i + 1, cardListType)
    }

    /** `getCardCount`. */
    method GetCardCount(cardListType: CardListType, includeSubdeckCounts: bool) returns (result: nat)
      requires Valid()
      ensures result == Count(cardListType, includeSubdeckCounts)
      decreases Repr, 1
    {
      result := 0;
      if cardListType == NewCard || cardListType == All {
        result := result + |newFlashcards|;
      }
      if cardListType == DueCard || cardListType == All {
        result := result + |dueFlashcards|;
      }
      if includeSubdeckCounts {
        var n := SubdeckCardCount(cardListType);
        result := result + n;
      }
    }

    /** The loop of `getCardCount` over the subdecks, each counted with its own
        subdecks. */
    method SubdeckCardCount(cardListType: CardListType) returns (result: nat)
      requires Valid()
      ensures result == SubdeckCount(0, cardListType)
      decreases Repr, 0
    {
      result := 0;
      for i := 0 to |subdecks|
        invariant result + SubdeckCount(i, cardListType) == SubdeckCount(0, cardListType)
      {
        var subdeck := subdecks[i];
        SubdeckCountStep(i, cardListType);
        var n := subdeck.GetCardCount(cardListType, true);
        result := result + n;
      }
    }

    /** The subdeck at `i` is a well-formed smaller tree, and the count from `i` on is
        its count plus the count from `i + 1` on. */
    lemma SubdeckCountStep(i: nat, cardListType: CardListType)
      requires Valid() && i < |subdecks|
      ensures subdecks[i].Valid() && subdecks[i].Repr < Repr
      ensures SubdeckCount(i, cardListType) == subdecks[i].Count(cardListType, true) + SubdeckCount(i + 1, cardListType)
    {
      assert subdecks[i] in subdecks;
    }

    /** Counting both lists counts the new cards and the due cards. */
    lemma {:induction false} CountAll(includeSubdeckCounts: bool)
      requires Valid()
      ensures Count(All, includeSubdeckCounts) == Count(NewCard, includeSubdeckCounts) + Count(DueCard, includeSubdeckCounts)
      decreases Repr, |subdecks| + 1
    {
      if includeSubdeckCounts {
        SubdeckCountAll(0);
      }
    }

    lemma {:induction false} SubdeckCountAll(i: nat)
      requires Valid() && i <= |subdecks|
      ensures SubdeckCount(i, All) == SubdeckCount(i, NewCard) + SubdeckCount(i, DueCard)
      decreases Repr, |subdecks| - i
    {
      if i < |subdecks| {
        subdecks[i].CountAll(true);
        SubdeckCountAll(i + 1);
      }
    }

    /* Finding and creating decks by topic path. */

    /** The deck at `topicPath` below this one, following the first subdeck with each
        name, or null when there is none. */
    function GetDeck(topicPath: seq<string>): (d: Deck?)
      requires Valid()
      reads this`Repr, this`subdecks, this`Path, this`Ancestors
      reads Repr`Repr, Repr`subdecks, Repr`parent, Repr`Path, Repr`deckName, Repr`Ancestors
      ensures d != null ==> d in Repr && d.Repr <= Repr && d.Valid() && d.Path == Path + topicPath
      decreases Repr
    {
      if topicPath == [] then this
      else
        var i := FindChild(subdecks, topicPath[0]);
        if i == |subdecks| then null
        else
          var d := subdecks[i].GetDeck(topicPath[1..]);
          assert d != null ==> d.Path == Path + topicPath by {
            if d != null {
              assert [topicPath[0]] + topicPath[1..] == topicPath;
            }
          }
          d
    }

    /** The deepest deck of the tree on `topicPath`: where following the path stops,
        the deck at the whole path when it exists. */
    ghost function Deepest(topicPath: seq<string>): (d: Deck)
      requires Valid()
      reads this`Repr, this`subdecks, this`Path, this`Ancestors
      reads Repr`Repr, Repr`subdecks, Repr`parent, Repr`Path, Repr`deckName, Repr`Ancestors
      ensures d in Repr && PathPrefix(d.Path, Path + topicPath)
      decreases Repr
    {
      if topicPath == [] then this
      else
        var i := FindChild(subdecks, topicPath[0]);
        if i == |subdecks| then this
        else
          var d := subdecks[i].Deepest(topicPath[1..]);
          assert PathPrefix(d.Path, Path + topicPath) by {
            assert [topicPath[0]] + topicPath[1..] == topicPath;
          }
          d
    }

    /** A deck found below a linked deck is linked. */
    lemma {:induction false} GetDeckLinked(topicPath: seq<string>)
      requires Valid() && Linked() && GetDeck(topicPath) != null
      ensures GetDeck(topicPath).Linked()
      decreases Repr
    {
      if topicPath != [] {
        var i := FindChild(subdecks, topicPath[0]);
        SubdeckLinked(subdecks[i]);
        subdecks[i].GetDeckLinked(topicPath[1..]);
      }
    }

    /** The deck reached by a path from a linked deck is linked, and from a root its
        path is the path followed: with `GetTopicPath`, reading back the path of the
        deck `GetOrCreateDeck(p)` returns on a root gives `p`. */
    lemma ReachesLinked(topicPath: seq<string>, d: Deck)
      requires Linked() && Reaches(topicPath, d)
      ensures d.Linked() && (IsRootDeck() ==> d.Path == topicPath)
    {
      GetDeckLinked(topicPath);
    }

    /** `getOrCreateDeck`: follows `topicPath` down the tree, reusing the first subdeck
        with the next name and otherwise appending a new subdeck with that name, and
        returns the deck at the end of the path. Only the deepest existing deck on the
        path may change its subdecks: it gains the first of the decks `created`, which
        form a new empty chain down to the end of the path, one deck per missing name. */
    method GetOrCreateDeck(topicPath: seq<string>) returns (d: Deck, ghost created: seq<Deck>, ghost attach: Deck)
      requires Valid()
      modifies Deepest(topicPath)`subdecks, Repr`Repr
      ensures Valid() && Repr == old(Repr) + Elements(created) && fresh(Repr - old(Repr))
      ensures Reaches(topicPath, d) && |created| <= |topicPath| && CreatedAlong(created, Path + topicPath)
      ensures attach == old(Deepest(topicPath)) && GainedFirst(attach, created, Path + topicPath)
      ensures topicPath == [] ==> d == this && subdecks == old(subdecks)
      ensures topicPath != [] && HasChildNamed(old(subdecks), topicPath[0]) ==> subdecks == old(subdecks)
      ensures topicPath != [] && !HasChildNamed(old(subdecks), topicPath[0]) ==>
        |subdecks| == |old(subdecks)| + 1 && subdecks[..|old(subdecks)|] == old(subdecks)
        && fresh(subdecks[|old(subdecks)|]) && subdecks[|old(subdecks)|].deckName == topicPath[0]
        && subdecks[|old(subdecks)|].parent == this
      decreases |topicPath|, 2
    {
      if topicPath == [] {
        return this, [], this;
      }
      var deckName := topicPath[0];
      var i := 0;
      while i < |subdecks|
        invariant i <= |subdecks|
        invariant forall k :: 0 <= k < i ==> subdecks[k].deckName != deckName
      {
        if deckName == subdecks[i].deckName {
          assert FindChild(subdecks, deckName) == i;
          d, created, attach := DescendInto(i, topicPath);
          return;
        }
        i := i + 1;
      }
      assert FindChild(subdecks, deckName) == |subdecks|;
      d, created := AppendSubdeck(topicPath);
      attach := this;
    }

    /** No card is in any of the decks. */
    ghost predicate NoCards(decks: set<Deck>)
      reads decks`newFlashcards, decks`dueFlashcards
    {
      forall x :: x in decks ==> x.newFlashcards == [] && x.dueFlashcards == []
    }

    /** `d` is the deck at `topicPath` below this well-formed deck. */
    ghost predicate Reaches(topicPath: seq<string>, d: Deck)
      reads this`Repr, this`subdecks, this`Path, this`Ancestors
      reads Repr`Repr, Repr`subdecks, Repr`parent, Repr`Path, Repr`deckName, Repr`Ancestors
    {
      Valid() && d in Repr && d.Repr <= Repr && d.Valid() && d.Path == Path + topicPath && GetDeck(topicPath) == d
    }

    /** A deck stays reached by a path while the tree does not change. */
    twostate lemma ReachesKept(new topicPath: seq<string>, d: Deck)
      requires old(Reaches(topicPath, d)) && unchanged(this) && unchanged(old(Repr))
      ensures Reaches(topicPath, d)
    {
    }

    /** The rest of the path is created below the existing subdeck `i`, the first with
        the next name. */
    method DescendInto(i: nat, topicPath: seq<string>) returns (d: Deck, ghost created: seq<Deck>, ghost attach: Deck)
      requires Valid() && topicPath != [] && i < |subdecks| && subdecks[i].deckName == topicPath[0]
      requires forall k :: 0 <= k < i ==> subdecks[k].deckName != topicPath[0]
      modifies subdecks[i].Deepest(topicPath[1..])`subdecks, Repr`Repr
      ensures Valid() && Repr == old(Repr) + Elements(created) && fresh(Repr - old(Repr))
      ensures Reaches(topicPath, d) && subdecks == old(subdecks)
      ensures |created| < |topicPath| && CreatedAlong(created, Path + topicPath)
      ensures attach == old(subdecks[i].Deepest(topicPath[1..])) && GainedFirst(attach, created, Path + topicPath)
      decreases |topicPath|, 0
    {
      var subdeck := subdecks[i];
      assert subdeck.Path + topicPath[1..] == Path + topicPath;
      d, created, attach := subdeck.GetOrCreateDeck(topicPath[1..]);
      Absorb(subdeck, created, Path + topicPath, topicPath[1..], d);
      DescentSettled(subdeck, i, topicPath, d, created);
    }

    /** The subtree of `subdeck`, grown by the chain `created`, is taken into this
        deck's footprint; the chain is left as it was. */
    ghost method Absorb(subdeck: Deck, created: seq<Deck>, target: seq<string>, rest: seq<string>, d: Deck)
      requires CreatedAlong(created, target) && subdeck.Reaches(rest, d) && this !in subdeck.Repr
      modifies this`Repr
      ensures Repr == old(Repr) + subdeck.Repr && CreatedAlong(created, target) && subdeck.Reaches(rest, d)
    {
      Repr := Repr + subdeck.Repr;
    }

    /** The deck reached below the first subdeck with the next name is the deck at the
        whole path. */
    lemma ReachesThrough(i: nat, topicPath: seq<string>, d: Deck)
      requires Valid() && topicPath != [] && i < |subdecks| && subdecks[i].deckName == topicPath[0]
      requires forall k :: 0 <= k < i ==> subdecks[k].deckName != topicPath[0]
      requires subdecks[i].Reaches(topicPath[1..], d)
      ensures Reaches(topicPath, d)
    {
      assert [topicPath[0]] + topicPath[1..] == topicPath;
      assert FindChild(subdecks, topicPath[0]) == i;
    }

    /** After the rest of the path was followed below the `i`th subdeck, the first with
        the next name, and its grown subtree was taken into the footprint, this deck is
        well formed again and the deck reached below that subdeck is the one at the
        whole path. */
    twostate lemma DescentSettled(new subdeck: Deck, new i: nat, new topicPath: seq<string>, new d: Deck, new created: seq<Deck>)
      requires old(Valid()) && old(topicPath != [] && i < |subdecks| && subdecks[i].deckName == topicPath[0])
      requires old(forall k :: 0 <= k < i ==> subdecks[k].deckName != topicPath[0])
      requires subdeck == old(subdecks[i]) && unchanged(this`subdecks, this`Path, this`Ancestors)
      requires unchanged(subdeck`parent, subdeck`Path, subdeck`deckName, subdeck`Ancestors)
      requires subdeck.Reaches(topicPath[1..], d)
      requires subdeck.Repr == old(subdeck.Repr) + Elements(created) && fresh(subdeck.Repr - old(subdeck.Repr))
      requires Repr == old(Repr) + subdeck.Repr
      requires forall e :: e in old(subdecks) && e != subdeck ==> unchanged(old(e.Repr))
      ensures Reaches(topicPath, d) && Repr == old(Repr) + Elements(created) && fresh(Repr - old(Repr))
    {
      assert subdeck in old(subdecks) && subdeck in old(Repr);
      SubtreeGrown(subdeck);
      forall k | 0 <= k < i
        ensures subdecks[k].deckName != topicPath[0]
      {
        assert subdecks[k] in old(subdecks[k].Repr);
      }
      ReachesThrough(i, topicPath, d);
    }

    /** Growing the subtree of one subdeck with new decks keeps this deck well formed,
        when nothing else of the tree changed. */
    twostate lemma SubtreeGrown(subdeck: Deck)
      requires old(Valid()) && subdeck in old(subdecks)
      requires subdecks == old(subdecks) && Path == old(Path) && Ancestors == old(Ancestors)
      requires subdeck.Valid() && old(subdeck.Repr) <= subdeck.Repr && fresh(subdeck.Repr - old(subdeck.Repr))
      requires subdeck.parent == this && subdeck.Path == Path + [subdeck.deckName] && subdeck.Ancestors == Ancestors + {this}
      requires Repr == old(Repr) + subdeck.Repr
      requires forall e :: e in old(subdecks) && e != subdeck ==> unchanged(old(e.Repr))
      ensures Valid()
    {
      forall e | e in subdecks && e != subdeck
        ensures e.Repr == old(e.Repr) && e.Valid()
      {
        assert e in old(e.Repr);
      }
    }

    /** A new subdeck with the next name is appended, and the rest of the path is
        created below it. */
    method AppendSubdeck(topicPath: seq<string>) returns (d: Deck, ghost created: seq<Deck>)
      requires Valid() && topicPath != [] && !HasChildNamed(subdecks, topicPath[0])
      modifies this`subdecks, Repr`Repr
      ensures Valid() && Repr == old(Repr) + Elements(created) && fresh(Repr - old(Repr))
      ensures Reaches(topicPath, d) && |created| == |topicPath| && CreatedAlong(created, Path + topicPath)
      ensures subdecks == old(subdecks) + [created[0]]
      ensures fresh(created[0]) && created[0].deckName == topicPath[0] && created[0].parent == this
      decreases |topicPath|, 1
    {
      var subdeck := AddSubdeck(topicPath[0]);
      label added:
      ghost var below, attach;
      d, below, attach := DescendInto(|subdecks| - 1, topicPath);
      AppendSettled@added(subdeck, topicPath, below, attach, old(Repr));
      created := [subdeck] + below;
    }

    /** With the new subdeck appended at the label and the rest of the path created
        below it since, the new subdeck heads the whole chain created along the path,
        and the footprint grew by exactly that chain. */
    twostate lemma AppendSettled(new subdeck: Deck, new topicPath: seq<string>, new below: seq<Deck>,
                                 new attach: Deck, new entryRepr: set<Deck>)
      requires old(Valid()) && topicPath != [] && old(subdecks) != [] && old(subdecks[|subdecks| - 1]) == subdeck
      requires old(subdeck.deckName) == topicPath[0] && old(subdeck.subdecks) == []
      requires old(subdeck.newFlashcards) == [] && old(subdeck.dueFlashcards) == []
      requires old(Repr) == entryRepr + {subdeck} && subdeck !in entryRepr
      requires unchanged(this`Path) && unchanged(subdeck`newFlashcards, subdeck`dueFlashcards, subdeck`Path)
      requires attach == old(subdecks[|subdecks| - 1].Deepest(topicPath[1..]))
      requires CreatedAlong(below, Path + topicPath) && GainedFirst(attach, below, Path + topicPath)
      requires Repr == old(Repr) + Elements(below)
      ensures CreatedAlong([subdeck] + below, Path + topicPath) && |below| + 1 == |topicPath|
      ensures Repr == entryRepr + Elements([subdeck] + below) && Repr - entryRepr == {subdeck} + (Repr - old(Repr))
    {
      assert old(subdeck.Path) == old(Path) + [topicPath[0]];
      assert (Path + topicPath)[..|Path| + 1] == Path + [topicPath[0]];
      assert Elements([subdeck] + below) == {subdeck} + Elements(below);
      ChainBelow(subdeck, below, Path + topicPath);
    }

    /** A new empty deck on `target` just above a chain created down to its end, with
        the chain's first deck as its only subdeck (or none), heads a longer chain. */
    lemma ChainBelow(subdeck: Deck, below: seq<Deck>, target: seq<string>)
      requires CreatedAlong(below, target) && subdeck.newFlashcards == [] && subdeck.dueFlashcards == []
      requires subdeck.subdecks == (if below == [] then [] else [below[0]])
      requires |subdeck.Path| + |below| == |target| && PathPrefix(subdeck.Path, target)
      ensures CreatedAlong([subdeck] + below, target)
    {
      forall k | 0 <= k < |below| + 1
        ensures CreatedOnPath(([subdeck] + below)[k], target, |target| - |below| - 1 + k + 1)
      {
        if k > 0 {
          assert ([subdeck] + below)[k] == below[k - 1];
        }
      }
    }

    /** The decks of a chain created along a path hold no card. */
    lemma CreatedHoldNoCards(created: seq<Deck>, target: seq<string>, decks: set<Deck>)
      requires CreatedAlong(created, target) && decks <= Elements(created)
      ensures NoCards(decks)
    {
      forall x | x in decks
        ensures x.newFlashcards == [] && x.dueFlashcards == []
      {
        var k :| 0 <= k < |created| && created[k] == x;
        assert CreatedOnPath(created[k], target, |target| - |created| + k + 1);
      }
    }

    /** A new empty deck named `deckName` is appended to the subdecks. */
    method AddSubdeck(deckName: string) returns (subdeck: Deck)
      requires Valid()
      modifies this`subdecks, this`Repr
      ensures Valid() && fresh(subdeck) && subdecks == old(subdecks) + [subdeck] && Repr == old(Repr) + {subdeck}
      ensures subdeck.deckName == deckName && subdeck.parent == this && subdeck.Repr == {subdeck} && subdeck.subdecks == []
      ensures subdeck.newFlashcards == [] && subdeck.dueFlashcards == []
    {
      subdeck := new Deck(deckName, this);
      subdecks := subdecks + [subdeck];
      Repr := Repr + {subdeck};
    }
  
    /** `getTopicPath`: the names met walking up the parent links to the root, in
        root-first order, which is the path the deck was created along. */
    method GetTopicPath() returns (path: seq<string>)
      requires Linked()
      ensures path == Path
    {
      var list: seq<string> := [];
      var deck: Deck := this;
      while !deck.IsRootDeck()
        invariant deck.Linked()
        invariant Path == deck.Path + Reverse(list)
        decreases |deck.Path|
      {
        ReverseAppend(list, deck.deckName);
        list := list + [deck.deckName];
        deck := deck.parent;
      }
      path := Reverse(list);
    }

    /* The card lists. */

    /** `getCardListForCardType`: the due list for due cards, the new list otherwise. */
    function GetCardListForCardType(cardListType: CardListType): (r: seq<Card>)
      reads this`newFlashcards, this`dueFlashcards
      ensures cardListType == DueCard ==> r == dueFlashcards
      ensures cardListType != DueCard ==> r == newFlashcards
    {
      if cardListType == DueCard then dueFlashcards else newFlashcards
    }

    /** `insertFlashcard`: the card is appended to the list its type selects, in the
        deck at `topicPath`, which is created if needed; no other list changes. */
    method InsertFlashcard(topicPath: seq<string>, card: Card) returns (ghost deck: Deck)
      requires Valid()
      modifies Deepest(topicPath)`subdecks, Repr`Repr, Repr`newFlashcards, Repr`dueFlashcards
      ensures Reaches(topicPath, deck) && old(Repr) <= Repr && fresh(Repr - old(Repr))
      ensures forall x :: x in old(Repr) && x != old(Deepest(topicPath)) ==> x.subdecks == old(x.subdecks)
      ensures deck.GetCardListForCardType(card.ListType())
           == (if deck in old(Repr) then old(deck.GetCardListForCardType(card.ListType())) else []) + [card]
      ensures card.isNew ==> deck.dueFlashcards == (if deck in old(Repr) then old(deck.dueFlashcards) else [])
      ensures !card.isNew ==> deck.newFlashcards == (if deck in old(Repr) then old(deck.newFlashcards) else [])
      ensures forall x :: x in old(Repr) && x != deck ==>
        x.newFlashcards == old(x.newFlashcards) && x.dueFlashcards == old(x.dueFlashcards)
      ensures NoCards(Repr - old(Repr) - {deck}) && |Repr - old(Repr)| <= |topicPath|
    {
      ghost var created, attach;
      var d;
      d, created, attach := GetOrCreateDeck(topicPath);
      CreatedHoldNoCards(created, Path + topicPath, Repr - old(Repr));
      GrowthBounded(old(Repr), Repr, created);
      deck := d;
      ghost var before := if d in old(Repr) then old((d.newFlashcards, d.dueFlashcards)) else ([], []);
      assert (d.newFlashcards, d.dueFlashcards) == before;
      label grown:
      PushAt(topicPath, d, card);
      EmptyDecksKept@grown(d, old(Repr));
    }

    /** When only the cards of `d` changed, the decks that were empty, other than `d`,
        are still empty. */
    twostate lemma EmptyDecksKept(new d: Deck, new entryRepr: set<Deck>)
      requires old(NoCards(Repr - entryRepr)) && unchanged(this`Repr)
      requires unchanged((Repr - entryRepr - {d})`newFlashcards, (Repr - entryRepr - {d})`dueFlashcards)
      ensures NoCards(Repr - entryRepr - {d})
    {
    }

    /** The card appended to the deck at `topicPath`; the tree itself does not change,
        so it stays well formed and the deck stays at its path. */
    method PushAt(ghost topicPath: seq<string>, d: Deck, card: Card)
      requires Reaches(topicPath, d)
      modifies d`newFlashcards, d`dueFlashcards
      ensures Reaches(topicPath, d)
      ensures d.GetCardListForCardType(card.ListType()) == old(d.GetCardListForCardType(card.ListType())) + [card]
      ensures card.isNew ==> d.dueFlashcards == old(d.dueFlashcards)
      ensures !card.isNew ==> d.newFlashcards == old(d.newFlashcards)
    {
      d.Push(card);
    }

    /** The card appended to the list of this deck its type selects. */
    method Push(card: Card)
      modifies this`newFlashcards, this`dueFlashcards
      ensures GetCardListForCardType(card.ListType()) == old(GetCardListForCardType(card.ListType())) + [card]
      ensures card.isNew ==> dueFlashcards == old(dueFlashcards)
      ensures !card.isNew ==> newFlashcards == old(newFlashcards)
    {
      if card.ListType() == DueCard {
        dueFlashcards := dueFlashcards + [card];
      } else {
        newFlashcards := newFlashcards + [card];
      }
    }

    /** `deleteFlashcardAtIndex`: `splice(index, 1)` on the selected list; the other
        list does not change. */
    method DeleteFlashcardAtIndex(index: int, cardListType: CardListType)
      modifies this`newFlashcards, this`dueFlashcards
      ensures GetCardListForCardType(cardListType) == SpliceOne(old(GetCardListForCardType(cardListType)), index)
      ensures cardListType == DueCard ==> newFlashcards == old(newFlashcards)
      ensures cardListType != DueCard ==> dueFlashcards == old(dueFlashcards)
    {
      if cardListType == DueCard {
        dueFlashcards := SpliceOne(dueFlashcards, index);
      } else {
        newFlashcards := SpliceOne(newFlashcards, index);
      }
    }

    /** `deleteAllCardsForQuestion`: each card of the question, in turn, is removed
        from the due list where it first occurs there, and otherwise from the new list
        where it first occurs there. */
    method DeleteAllCardsForQuestion(question: Question)
      modifies this`newFlashcards, this`dueFlashcards
      ensures (dueFlashcards, newFlashcards) == RemoveSiblings(old(dueFlashcards), old(newFlashcards), question.cards)
    {
      var siblings := question.cards;
      for i := 0 to |siblings|
        invariant (dueFlashcards, newFlashcards) == RemoveSiblings(old(dueFlashcards), old(newFlashcards), siblings[..i])
      {
        var sibling := siblings[i];
        ghost var next := RemoveSibling(dueFlashcards, newFlashcards, sibling);
        RemoveSiblingsStep(old(dueFlashcards), old(newFlashcards), siblings, i);
        var dueIdx := IndexOf(dueFlashcards, sibling);
        var newIdx := IndexOf(newFlashcards, sibling);
        if dueIdx != -1 {
          DeleteFlashcardAtIndex(dueIdx, DueCard);
        } else if newIdx != -1 {
          DeleteFlashcardAtIndex(newIdx, NewCard);
        }
        assert (dueFlashcards, newFlashcards) == next;
      }
      assert siblings[..|siblings|] == siblings;
    }

    /** `sortSubdecksList`: the subdecks of every deck of the subtree end up ordered by
        name, each list a permutation of what it was; no card list changes. */
    method SortSubdecksList()
      requires Valid()
      modifies Repr`subdecks
      ensures Valid() && SortedTree()
      ensures forall x :: x in Repr ==> multiset(x.subdecks) == multiset(old(x.subdecks))
      decreases Repr
    {
      SortOwnSubdecks();
      ghost var sorted := subdecks;
      for i := 0 to |subdecks|
        invariant subdecks == sorted
        invariant Valid()
        invariant forall k :: 0 <= k < i ==> subdecks[k].SortedTree()
        invariant forall x :: x in Repr ==> multiset(x.subdecks) == multiset(old(x.subdecks))
      {
        var subdeck := subdecks[i];
        label before:
        subdeck.SortSubdecksList();
        SortedSiblingsKept@before(i);
      }
    }

    /** This deck's own subdecks put in order by name. */
    method SortOwnSubdecks()
      requires Valid()
      modifies this`subdecks
      ensures Valid() && NameOrdered(subdecks) && multiset(subdecks) == multiset(old(subdecks))
    {
      ghost var unsorted := subdecks;
      subdecks := SortByName(subdecks);
      SameMembers(subdecks, unsorted);
      SameMembers(unsorted, subdecks);
      assert forall d :: d in subdecks <==> d in unsorted;
    }

    /** After the subtree of the `i`th subdeck is sorted in place, this deck is still
        valid and the subdecks before it are still sorted. */
    twostate lemma SortedSiblingsKept(i: int)
      requires old(Valid()) && 0 <= i < |old(subdecks)|
      requires subdecks == old(subdecks) && Path == old(Path) && Ancestors == old(Ancestors) && Repr == old(Repr)
      requires subdecks[i].Valid() && subdecks[i].Repr == old(subdecks[i].Repr)
      requires subdecks[i].parent == this && subdecks[i].Path == Path + [subdecks[i].deckName]
      requires subdecks[i].Ancestors == Ancestors + {this}
      requires forall e :: e in old(subdecks) && e != subdecks[i] ==> unchanged(old(e.Repr))
      requires subdecks[i].SortedTree() && forall k :: 0 <= k < i ==> old(subdecks[k].SortedTree())
      ensures Valid() && forall k :: 0 <= k <= i ==> subdecks[k].SortedTree()
    {
      SubtreeGrown(subdecks[i]);
      SortedPrefixKept(i);
    }

    /** The subdecks before the `i`th stay sorted when only the `i`th subtree changed. */
    twostate lemma SortedPrefixKept(i: int)
      requires old(Valid()) && 0 <= i < |old(subdecks)| && subdecks == old(subdecks)
      requires forall e :: e in old(subdecks) && e != subdecks[i] ==> unchanged(old(e.Repr))
      requires forall k :: 0 <= k < i ==> old(subdecks[k].SortedTree())
      ensures forall k :: 0 <= k < i && subdecks[k] != subdecks[i] ==> subdecks[k].Valid() && subdecks[k].SortedTree()
    {
      forall k | 0 <= k < i && subdecks[k] != subdecks[i]
        ensures subdecks[k].Valid() && subdecks[k].SortedTree()
      {
        SortedKept(subdecks[k]);
      }
    }

    /** A subtree none of whose decks changed stays sorted. */
    twostate lemma SortedKept(d: Deck)
      requires old(d.Valid()) && old(d.SortedTree()) && unchanged(old(d.Repr))
      ensures d.Valid() && d.SortedTree()
    {
      assert d in old(d.Repr);
    }

    /** The subdecks of every deck of the subtree are ordered by name. */
    ghost predicate SortedTree()
      requires Valid()
      reads this`Repr, this`subdecks, this`Path, this`Ancestors
      reads Repr`Repr, Repr`subdecks, Repr`parent, Repr`Path, Repr`deckName, Repr`Ancestors
      decreases Repr
    {
      NameOrdered(subdecks) && forall d :: d in subdecks ==> d.SortedTree()
    }
  }

  /** Round trip of `getOrCreateDeck` and `getTopicPath`: the deck created (or found)
      along a path below a root deck reads back exactly that path. */
  method CreateAndReadTopicPath(root: Deck, topicPath: seq<string>) returns (d: Deck, path: seq<string>)
    requires root.Valid() && root.Linked() && root.IsRootDeck()
    modifies root.Repr`subdecks, root.Repr`Repr
    ensures root.Reaches(topicPath, d)
    ensures path == topicPath
  {
    ghost var created, attach;
    d, created, attach := root.GetOrCreateDeck(topicPath);
    root.ReachesLinked(topicPath, d);
    label found:
    path := d.GetTopicPath();
    root.ReachesKept@found(topicPath, d);
  }

  lemma ReverseAppend(list: seq<string>, name: string)
    ensures Reverse(list + [name]) == [name] + Reverse(list)
  {
  }

  /** `splice(index, 1)`: a negative index counts from the end, an index before the
      start means the first element, and an index past the end removes nothing. */
  function SpliceOne(s: seq<Card>, index: int): (r: seq<Card>)
    ensures 0 <= index < |s| ==> r == s[..index] + s[index + 1..]
    ensures -|s| <= index < 0 ==> r == s[..|s| + index] + s[|s| + index + 1..]
    ensures index < -|s| && s != [] ==> r == s[1..]
    ensures index >= |s| ==> r == s
  {
    var start := if index < 0 then (if |s| + index < 0 then 0 else |s| + index) else (if index < |s| then index else |s|);
    if start < |s| then s[..start] + s[start + 1..] else s
  }

  /** Removing an element at an index inside the list removes exactly that element. */
  lemma SpliceOneRemoves(s: seq<Card>, index: nat)
    requires index < |s|
    ensures |SpliceOne(s, index)| == |s| - 1
    ensures multiset(SpliceOne(s, index)) + multiset{s[index]} == multiset(s)
  {
    assert s == s[..index] + [s[index]] + s[index + 1..];
  }

  /** `indexOf`: the first position of `c`, or -1 when it is not in the list. */
  function IndexOf(s: seq<Card>, c: Card): (r: int)
    ensures r == -1 <==> c !in s
    ensures r != -1 ==> 0 <= r < |s| && s[r] == c && c !in s[..r]
  {
    if s == [] then -1
    else if s[0] == c then 0
    else
      var r := IndexOf(s[1..], c);
      assert s[1..][..if r == -1 then 0 else r] == s[1..1 + if r == -1 then 0 else r];
      if r == -1 then -1 else 1 + r
  }

  /** One card of a question removed: from the due list if it is there, otherwise from
      the new list if it is there. */
  function RemoveSibling(due: seq<Card>, newCards: seq<Card>, sibling: Card): (seq<Card>, seq<Card>)
  {
    var dueIdx := IndexOf(due, sibling);
    var newIdx := IndexOf(newCards, sibling);
    if dueIdx != -1 then (SpliceOne(due, dueIdx), newCards)
    else if newIdx != -1 then (due, SpliceOne(newCards, newIdx))
    else (due, newCards)
  }

  /** All cards of a question removed, one after the other. */
  function RemoveSiblings(due: seq<Card>, newCards: seq<Card>, siblings: seq<Card>): (seq<Card>, seq<Card>)
  {
    if siblings == [] then (due, newCards)
    else
      var (d, n) := RemoveSiblings(due, newCards, siblings[..|siblings| - 1]);
      RemoveSibling(d, n, siblings[|siblings| - 1])
  }

  /** Removing the first `i + 1` siblings is removing the first `i`, then sibling `i`. */
  lemma RemoveSiblingsStep(due: seq<Card>, newCards: seq<Card>, siblings: seq<Card>, i: nat)
    requires i < |siblings|
    ensures var prev := RemoveSiblings(due, newCards, siblings[..i]);
      RemoveSiblings(due, newCards, siblings[..i + 1]) == RemoveSibling(prev.0, prev.1, siblings[i])
  {
    assert siblings[..i + 1][..i] == siblings[..i];
  }

  /** The sibling cards of a question that are in neither list leave both unchanged. */
  lemma {:induction false} RemoveAbsentSiblings(due: seq<Card>, newCards: seq<Card>, siblings: seq<Card>)
    requires forall k :: 0 <= k < |siblings| ==> siblings[k] !in due && siblings[k] !in newCards
    ensures RemoveSiblings(due, newCards, siblings) == (due, newCards)
  {
    if siblings != [] {
      RemoveAbsentSiblings(due, newCards, siblings[..|siblings| - 1]);
    }
  }

  /** Removing the cards of a question only removes cards, and only cards of that
      question: every other card occurs as often as before in each list. */
  lemma {:induction false} RemoveSiblingsOnlyRemovesSiblings(due: seq<Card>, newCards: seq<Card>, siblings: seq<Card>)
    ensures multiset(RemoveSiblings(due, newCards, siblings).0) <= multiset(due)
    ensures multiset(RemoveSiblings(due, newCards, siblings).1) <= multiset(newCards)
    ensures forall c :: c !in siblings ==>
      multiset(RemoveSiblings(due, newCards, siblings).0)[c] == multiset(due)[c]
      && multiset(RemoveSiblings(due, newCards, siblings).1)[c] == multiset(newCards)[c]
  {
    if siblings != [] {
      var init := siblings[..|siblings| - 1];
      var last := siblings[|siblings| - 1];
      RemoveSiblingsOnlyRemovesSiblings(due, newCards, init);
      var (d, n) := RemoveSiblings(due, newCards, init);
      var dueIdx := IndexOf(d, last);
      var newIdx := IndexOf(n, last);
      if dueIdx != -1 {
        SpliceOneRemoves(d, dueIdx);
      } else if newIdx != -1 {
        SpliceOneRemoves(n, newIdx);
      }
      assert forall c :: c in init ==> c in siblings;
    }
  }

  /* Ordering decks by name, comparing names character by character by code point. */

  /** `a` sorts no later than `b`. */
  predicate NameLe(a: string, b: string) {
    !LexLess(b, a)
  }

  lemma NameLeTransitive(a: string, b: string, c: string)
    requires NameLe(a, b) && NameLe(b, c)
    ensures NameLe(a, c)
  {
    if LexLess(c, a) {
      LexLessTotal(a, b);
      LexLessTotal(b, c);
      if a != b {
        LexLessTransitive(c, a, b);
      }
      LexLessIrreflexive(c);
      if b != c {
        if a == b {
          LexLessTransitive(c, b, c);
        } else {
          LexLessTransitive(c, a, b);
          LexLessTransitive(c, b, c);
        }
      }
      assert false;
    }
  }

  /** The decks are ordered by name. */
  predicate NameOrdered(ds: seq<Deck>)
    reads ds`deckName
  {
    forall i, j :: 0 <= i < j < |ds| ==> NameLe(ds[i].deckName, ds[j].deckName)
  }

  /** Every deck's name sorts no earlier than `m`. */
  predicate AllAtLeast(m: string, ds: seq<Deck>)
    reads ds`deckName
  {
    forall k :: 0 <= k < |ds| ==> NameLe(m, ds[k].deckName)
  }

  /** `d` inserted into an ordered list, after the decks whose names sort strictly
      earlier and before the first one whose name sorts no earlier: since the sort
      inserts each deck into the sorted rest of the list, decks with equal names keep
      their order, as they do in the stable `Array.prototype.sort`. */
  function Insert(d: Deck, ds: seq<Deck>): (r: seq<Deck>)
    reads d`deckName, ds`deckName
    ensures multiset(r) == multiset(ds) + multiset{d}
  {
    if ds == [] || NameLe(d.deckName, ds[0].deckName) then [d] + ds
    else
      assert ds == [ds[0]] + ds[1..];
      [ds[0]] + Insert(d, ds[1..])
  }

  lemma {:induction false} InsertAtLeast(m: string, d: Deck, ds: seq<Deck>)
    requires AllAtLeast(m, ds) && NameLe(m, d.deckName)
    ensures AllAtLeast(m, Insert(d, ds))
  {
    if ds != [] && !NameLe(d.deckName, ds[0].deckName) {
      InsertAtLeast(m, d, ds[1..]);
    }
  }

  lemma OrderedHead(ds: seq<Deck>)
    requires NameOrdered(ds) && ds != []
    ensures AllAtLeast(ds[0].deckName, ds[1..]) && NameOrdered(ds[1..])
  {
  }

  lemma OrderedCons(d: Deck, ds: seq<Deck>)
    requires AllAtLeast(d.deckName, ds) && NameOrdered(ds)
    ensures NameOrdered([d] + ds)
  {
  }

  lemma {:induction false} InsertOrdered(d: Deck, ds: seq<Deck>)
    requires NameOrdered(ds)
    ensures NameOrdered(Insert(d, ds))
  {
    if ds == [] {
    } else if NameLe(d.deckName, ds[0].deckName) {
      OrderedHead(ds);
      forall k | 0 <= k < |ds|
        ensures NameLe(d.deckName, ds[k].deckName)
      {
        if k > 0 {
          NameLeTransitive(d.deckName, ds[0].deckName, ds[k].deckName);
        }
      }
      OrderedCons(d, ds);
    } else {
      OrderedHead(ds);
      InsertOrdered(d, ds[1..]);
      LexLessAsymmetric(ds[0].deckName, d.deckName);
      InsertAtLeast(ds[0].deckName, d, ds[1..]);
      OrderedCons(ds[0], Insert(d, ds[1..]));
    }
  }

  /** Two lists with the same multiset hold the same decks. */
  lemma SameMembers(a: seq<Deck>, b: seq<Deck>)
    requires multiset(a) == multiset(b)
    ensures forall k :: 0 <= k < |a| ==> a[k] in b
  {
    forall k | 0 <= k < |a| ensures a[k] in b {
      assert a[k] in multiset(a);
    }
  }

  /** The decks of `ds` named `name`, in their order in `ds`. */
  function WithName(ds: seq<Deck>, name: string): seq<Deck>
    reads ds`deckName
  {
    if ds == [] then []
    else (if ds[0].deckName == name then [ds[0]] else []) + WithName(ds[1..], name)
  }

  /** Insertion passes only decks whose names sort strictly earlier, so it puts `d`
      first among the decks with its name. */
  lemma {:induction false} InsertWithName(d: Deck, ds: seq<Deck>, name: string)
    ensures WithName(Insert(d, ds), name)
         == (if d.deckName == name then [d] else []) + WithName(ds, name)
  {
    if ds == [] || NameLe(d.deckName, ds[0].deckName) {
      assert Insert(d, ds) == [d] + ds;
      assert ([d] + ds)[1..] == ds;
    } else {
      var rest := Insert(d, ds[1..]);
      assert Insert(d, ds) == [ds[0]] + rest;
      assert ([ds[0]] + rest)[1..] == rest;
      InsertWithName(d, ds[1..], name);
      LexLessIrreflexive(d.deckName);
      assert ds[0].deckName != d.deckName;
      var head := if ds[0].deckName == name then [ds[0]] else [];
      assert WithName(Insert(d, ds), name) == head + WithName(rest, name);
      assert WithName(ds, name) == head + WithName(ds[1..], name);
      if d.deckName == name {
        assert head == [];
      } else {
        assert head + ([] + WithName(ds[1..], name)) == head + WithName(ds[1..], name);
      }
    }
  }


  /** The sort is stable: for every name, the decks with that name keep their order. */
  lemma {:induction false} SortByNameStable(ds: seq<Deck>, name: string)
    ensures WithName(SortByName(ds), name) == WithName(ds, name)
  {
    if ds != [] {
      SortByNameStable(ds[1..], name);
      InsertWithName(ds[0], SortByName(ds[1..]), name);
    }
  }

  /** The array sort of the subdecks: an ordering by name of the same decks. */
  function SortByName(ds: seq<Deck>): (r: seq<Deck>)
    reads ds`deckName
    ensures multiset(r) == multiset(ds) && NameOrdered(r)
  {
    if ds == [] then []
    else
      var rest := SortByName(ds[1..]);
      SameMembers(rest, ds[1..]);
      assert ds == [ds[0]] + ds[1..];
      InsertOrdered(ds[0], rest);
      Insert(ds[0], rest)
  }
}
