/** Rendering the collected sections as one block of lines. */
module ChangelogRender {
  import opened Sequences
  import opened Changelog
  import opened ChangelogBlock

  const SECTION_ORDER := [
    "Breaking Changes", "Added", "Changed", "Deprecated", "Removed", "Fixed", "Security",
    "Performance", "Documentation", "Maintenance", "Testing", "Styling", "Reverted", "Other"]

  predicate HasBullets(items: map<string, seq<string>>, k: string) {
    k in items && items[k] != []
  }

  function KnownFirst(items: map<string, seq<string>>, order: seq<string>): seq<string> {
    Filter((k: string) => HasBullets(items, k), order)
  }

  function UnknownNames(items: map<string, seq<string>>, keys: seq<string>): seq<string> {
    Filter((k: string) => HasBullets(items, k) && k !in SECTION_ORDER, keys)
  }

  /** The sections that are written, in the order they are written. */
  function RenderOrder(sections: Sections): seq<string> {
    KnownFirst(sections.items, SECTION_ORDER) + UnknownNames(sections.items, sections.keys)
  }

  function SectionBlock(name: string, bullets: seq<string>): seq<string> {
    ["### " + name, ""] + bullets + [""]
  }

  function Blocks(items: map<string, seq<string>>, order: seq<string>): seq<string> {
    if order == [] then []
    else
      var k := order[|order| - 1];
      Blocks(items, order[..|order| - 1]) + SectionBlock(k, if k in items then items[k] else [])
  }

  lemma BlocksStep(items: map<string, seq<string>>, order: seq<string>, k: string)
    ensures Blocks(items, order + [k]) == Blocks(items, order) + SectionBlock(k, if k in items then items[k] else [])
  {
  }

  /** The block as a list of its lines, before they are joined. */
  method RenderBlock(sections: Sections, header: string) returns (out: seq<string>)
    requires sections.Valid()
    ensures out == [header, ""] + Blocks(sections.items, RenderOrder(sections))
  {
    hide *;
    out := [header, ""];
    var emitted: set<string> := {};
    NothingRendered(sections.items, sections.keys);
    for i := 0 to |SECTION_ORDER|
      invariant out == [header, ""] + Blocks(sections.items, KnownFirst(sections.items, SECTION_ORDER[..i]))
      invariant forall k :: k in emitted <==> k in SECTION_ORDER[..i] && HasBullets(sections.items, k)
    {
      var name := SECTION_ORDER[i];
      KnownStep(sections.items, SECTION_ORDER, i);
      if name in sections.items && sections.items[name] != [] {
        Regroup([header, ""], Blocks(sections.items, KnownFirst(sections.items, SECTION_ORDER[..i])),
                ["### " + name, ""], sections.items[name], [""]);
        out := out + ["### " + name, ""] + sections.items[name] + [""];
        emitted := emitted + {name};
      }
    }
    assert SECTION_ORDER[..|SECTION_ORDER|] == SECTION_ORDER;
    assert KnownFirst(sections.items, SECTION_ORDER) + [] == KnownFirst(sections.items, SECTION_ORDER);
    for i := 0 to |sections.keys|
      invariant out == [header, ""] +
        Blocks(sections.items, KnownFirst(sections.items, SECTION_ORDER) + UnknownNames(sections.items, sections.keys[..i]))
    {
      var name := sections.keys[i];
      UnknownStep(sections.items, sections.keys, i);
      if name !in emitted && name in sections.items && sections.items[name] != [] {
        ghost var written := KnownFirst(sections.items, SECTION_ORDER) + UnknownNames(sections.items, sections.keys[..i]);
        Regroup([header, ""], Blocks(sections.items, written), ["### " + name, ""], sections.items[name], [""]);
        out := out + ["### " + name, ""] + sections.items[name] + [""];
      }
    }
    assert sections.keys[..|sections.keys|] == sections.keys;
    OrderUnfolds(sections);
  }

  lemma Regroup(a: seq<string>, b: seq<string>, c: seq<string>, d: seq<string>, e: seq<string>)
    ensures a + b + c + d + e == a + (b + (c + d + e))
  {
  }

  lemma NothingRendered(items: map<string, seq<string>>, keys: seq<string>)
    ensures [] == Blocks(items, KnownFirst(items, SECTION_ORDER[..0])) == UnknownNames(items, keys[..0])
    ensures SECTION_ORDER[..0] == []
  {
  }

  lemma KnownStep(items: map<string, seq<string>>, order: seq<string>, i: nat)
    requires i < |order|
    ensures HasBullets(items, order[i]) <==> order[i] in items && items[order[i]] != []
    ensures order[..i + 1] == order[..i] + [order[i]]
    ensures Blocks(items, KnownFirst(items, order[..i + 1])) ==
            if HasBullets(items, order[i])
            then Blocks(items, KnownFirst(items, order[..i])) + (["### " + order[i], ""] + items[order[i]] + [""])
            else Blocks(items, KnownFirst(items, order[..i]))
  {
  }

  lemma UnknownStep(items: map<string, seq<string>>, keys: seq<string>, i: nat)
    requires i < |keys|
    ensures HasBullets(items, keys[i]) <==> keys[i] in items && items[keys[i]] != []
    ensures var known := KnownFirst(items, SECTION_ORDER);
            Blocks(items, known + UnknownNames(items, keys[..i + 1])) ==
            if HasBullets(items, keys[i]) && keys[i] !in SECTION_ORDER
            then Blocks(items, known + UnknownNames(items, keys[..i])) + (["### " + keys[i], ""] + items[keys[i]] + [""])
            else Blocks(items, known + UnknownNames(items, keys[..i]))
  {
    hide KnownFirst;
    var known := KnownFirst(items, SECTION_ORDER);
    FilterStep((k: string) => HasBullets(items, k) && k !in SECTION_ORDER, keys[..i], keys[i]);
    assert keys[..i + 1] == keys[..i] + [keys[i]];
    assert known + (UnknownNames(items, keys[..i]) + [keys[i]]) == (known + UnknownNames(items, keys[..i])) + [keys[i]];
    BlocksStep(items, known + UnknownNames(items, keys[..i]), keys[i]);
  }

  lemma OrderUnfolds(sections: Sections)
    ensures RenderOrder(sections) == KnownFirst(sections.items, SECTION_ORDER) + UnknownNames(sections.items, sections.keys)
  {
  }

  // ----- Nothing is left out -----

  lemma OrderIsDistinct()
    ensures Distinct(SECTION_ORDER)
  {
  }

  lemma {:induction false} FilterKeepsDistinct(p: string -> bool, s: seq<string>)
    requires Distinct(s)
    ensures Distinct(Filter(p, s))
  {
    if s != [] {
      var front, x := s[..|s| - 1], s[|s| - 1];
      assert s == front + [x];
      DistinctStep(front, x);
      FilterKeepsDistinct(p, front);
      FilterMembers(p, front, x);
      DistinctStep(Filter(p, front), x);
    }
  }

  /** The sections written are those with bullets, each once. */
  lemma WritesEverySection(sections: Sections)
    requires sections.Valid()
    ensures Distinct(RenderOrder(sections))
    ensures forall k :: k in RenderOrder(sections) <==> k in sections.keys && sections.items[k] != []
  {
    var items := sections.items;
    var isKnown, isUnknown := (k: string) => HasBullets(items, k), (k: string) => HasBullets(items, k) && k !in SECTION_ORDER;
    OrderIsDistinct();
    FilterKeepsDistinct(isKnown, SECTION_ORDER);
    FilterKeepsDistinct(isUnknown, sections.keys);
    var known, unknown := KnownFirst(items, SECTION_ORDER), UnknownNames(items, sections.keys);
    forall k ensures (k in known <==> k in SECTION_ORDER && HasBullets(items, k)) &&
                     (k in unknown <==> k in sections.keys && HasBullets(items, k) && k !in SECTION_ORDER) {
      FilterMembers(isKnown, SECTION_ORDER, k);
      FilterMembers(isUnknown, sections.keys, k);
    }
    hide *;
    OrderUnfolds(sections);
    AppendDistinct(known, unknown);
    BulletSections(sections);
  }

  lemma BulletSections(sections: Sections)
    requires sections.Valid()
    ensures forall k :: HasBullets(sections.items, k) <==> k in sections.keys && sections.items[k] != []
  {
  }

  lemma AppendDistinct(a: seq<string>, b: seq<string>)
    requires Distinct(a) && Distinct(b) && forall x :: x in a ==> x !in b
    ensures Distinct(a + b)
  {
    var t := a + b;
    forall i, j | 0 <= i < j < |t| ensures t[i] != t[j] {
      if i < |a| { assert t[i] in a; }
    }
  }

  lemma {:induction false} NoBulletsLeft(items: map<string, seq<string>>, keys: seq<string>)
    requires Elems(keys) <= items.Keys && forall k :: k in keys ==> items[k] == []
    ensures AllBullets(items, keys) == []
  {
    if keys != [] {
      assert forall k :: k in keys[..|keys| - 1] ==> k in keys;
      NoBulletsLeft(items, keys[..|keys| - 1]);
    }
  }

  lemma {:induction false} AllBulletsConcat(items: map<string, seq<string>>, a: seq<string>, b: seq<string>)
    requires Elems(a) <= items.Keys && Elems(b) <= items.Keys
    ensures Elems(a + b) <= items.Keys && AllBullets(items, a + b) == AllBullets(items, a) + AllBullets(items, b)
  {
    if b == [] {
      assert a + b == a;
    } else {
      var front, k := b[..|b| - 1], b[|b| - 1];
      assert forall x :: x in front ==> x in b;
      AllBulletsConcat(items, a, front);
      assert (a + b)[..|a + b| - 1] == a + front;
    }
  }

  /** Two listings of the same sections have the same bullets; sections without bullets do not matter. */
  lemma {:induction false} SameSectionsSameBullets(items: map<string, seq<string>>, a: seq<string>, b: seq<string>)
    requires Distinct(a) && Distinct(b) && Elems(a) <= items.Keys && Elems(b) <= items.Keys
    requires forall k :: (k in a && items[k] != []) <==> (k in b && items[k] != [])
    ensures multiset(AllBullets(items, a)) == multiset(AllBullets(items, b))
    decreases |a|
  {
    if a == [] {
      NoBulletsLeft(items, b);
    } else {
      var front, k := a[..|a| - 1], a[|a| - 1];
      assert a == front + [k];
      DistinctStep(front, k);
      ElemsStep(front, k);
      if items[k] == [] {
        SameSectionsSameBullets(items, front, b);
        assert AllBullets(items, a) == AllBullets(items, front) + [];
      } else {
        var i :| 0 <= i < |b| && b[i] == k;
        var left, right := b[..i], b[i + 1..];
        assert b == left + ([k] + right);
        RemoveOne(left, k, right);
        assert Elems(left + right) <= items.Keys;
        forall x ensures (x in front && items[x] != []) <==> (x in left + right && items[x] != []) {
          assert x in front <==> x in a && x != k;
        }
        hide AllBullets;
        SameSectionsSameBullets(items, front, left + right);
        PutBack(items, front, k, left, right);
      }
    }
  }

  lemma PutBack(items: map<string, seq<string>>, front: seq<string>, k: string, left: seq<string>, right: seq<string>)
    requires k in items && Elems(front) <= items.Keys && Elems(left) <= items.Keys && Elems(right) <= items.Keys
    requires Elems(left + right) <= items.Keys
    requires multiset(AllBullets(items, front)) == multiset(AllBullets(items, left + right))
    ensures Elems(front + [k]) <= items.Keys && Elems(left + ([k] + right)) <= items.Keys
    ensures multiset(AllBullets(items, front + [k])) == multiset(AllBullets(items, left + ([k] + right)))
  {
    AllBulletsPrefixed(items, k, right);
    AllBulletsPrefixed(items, k, []);
    assert [k] + [] == [k];
    AllBulletsConcat(items, front, [k]);
    AllBulletsConcat(items, left, right);
    AllBulletsConcat(items, left, [k] + right);
    assert AllBullets(items, []) == [];
    hide *;
  }

  lemma RemoveOne(left: seq<string>, k: string, right: seq<string>)
    requires Distinct(left + ([k] + right))
    ensures Distinct(left + right) && k !in left + right
    ensures forall x :: x in left + ([k] + right) <==> x == k || x in left + right
  {
    var t, u := left + ([k] + right), left + right;
    assert t[|left|] == k;
    forall i | 0 <= i < |u| ensures u[i] == t[if i < |left| then i else i + 1] {}
    forall x | x in t ensures x == k || x in u {}
    forall i | 0 <= i < |u| ensures u[i] in t {}
  }

  /** Every bullet is written exactly as often as it was collected. */
  lemma WritesEveryBullet(sections: Sections)
    requires sections.Valid()
    ensures Elems(RenderOrder(sections)) <= sections.items.Keys && Elems(sections.keys) <= sections.items.Keys
    ensures multiset(AllBullets(sections.items, RenderOrder(sections))) == multiset(AllBullets(sections.items, sections.keys))
  {
    WritesEverySection(sections);
    SameSectionsSameBullets(sections.items, RenderOrder(sections), sections.keys);
  }
}
