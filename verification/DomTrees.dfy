/**
 The tree below a node as a value, and what normalizing makes of it: runs of adjacent
 text nodes become one.
 */
module DomTrees {
  import opened Dom

  /** A node with its data and the trees of its children. */
  datatype Tree = Tree(node: Node, text: bool, data: string, kids: seq<Tree>)

  // ---------------------------------------------------------------------- measures

  function Count(t: Tree): (n: nat)
    ensures n > 0
  {
    1 + Counts(t.kids)
  }

  function Counts(ks: seq<Tree>): (n: nat)
    ensures ks != [] ==> Counts(ks[1..]) < n
  {
    if ks == [] then 0 else Count(ks[0]) + Counts(ks[1..])
  }

  // ------------------------------------------------------------------- normalizing

  /** The first of two adjacent text nodes takes the data of the second. */
  function Merged(t: Tree, next: Tree): Tree {
    t.(data := t.data + next.data)
  }

  predicate MergeNext(ks: seq<Tree>) {
    |ks| > 1 && ks[1].text && ks[0].text
  }

  function NormalKids(ks: seq<Tree>): seq<Tree>
    decreases Counts(ks), 1
  {
    if ks == [] then []
    else if MergeNext(ks) then
      CountsMerged(ks);
      NormalKids([Merged(ks[0], ks[1])] + ks[2..])
    else [Normal(ks[0])] + NormalKids(ks[1..])
  }

  /** `normalize` */
  function Normal(t: Tree): Tree
    decreases Count(t), 0
  {
    t.(kids := NormalKids(t.kids))
  }

  lemma CountsMerged(ks: seq<Tree>)
    requires |ks| > 1
    ensures Counts([Merged(ks[0], ks[1])] + ks[2..]) < Counts(ks)
  {
    var t := [Merged(ks[0], ks[1])] + ks[2..];
    assert t[1..] == ks[2..] && ks[1..][1..] == ks[2..];
    assert Counts(ks[1..]) == Count(ks[1]) + Counts(ks[2..]);
    assert Count(t[0]) == Count(ks[0]);
  }

  lemma CountsSplit(ks: seq<Tree>)
    requires ks != []
    ensures Counts(ks) == 1 + Counts(ks[0].kids) + Counts(ks[1..])
  {
  }

  // -------------------------------------------------------------------- its meaning

  /** A tree as it is read from beginning to end. */
  datatype Item = Enter(node: Node) | Char(c: char) | Leave(node: Node)

  function Chars(s: string): seq<Item> {
    if s == [] then [] else [Char(s[0])] + Chars(s[1..])
  }

  function Content(ks: seq<Tree>): seq<Item> {
    if ks == [] then []
    else if ks[0].text then Chars(ks[0].data) + Content(ks[1..])
    else [Enter(ks[0].node)] + Content(ks[0].kids) + [Leave(ks[0].node)] + Content(ks[1..])
  }

  /** At no depth two text nodes follow each other. */
  predicate NoAdjacentTexts(ks: seq<Tree>) {
    && (forall i :: 0 <= i < |ks| - 1 ==> !(ks[i].text && ks[i + 1].text))
    && (forall i :: 0 <= i < |ks| ==> NoAdjacentTexts(ks[i].kids))
  }

  lemma {:induction false} CharsAppend(s: string, t: string)
    ensures Chars(s + t) == Chars(s) + Chars(t)
  {
    if s == [] {
      assert s + t == t;
    } else {
      assert (s + t)[1..] == s[1..] + t;
      CharsAppend(s[1..], t);
    }
  }

  lemma ContentText(t: Tree, ks: seq<Tree>)
    requires t.text
    ensures Content([t] + ks) == Chars(t.data) + Content(ks)
  {
    hide Chars;
    assert ([t] + ks)[1..] == ks;
  }

  lemma ContentMerged(ks: seq<Tree>)
    requires MergeNext(ks)
    ensures Content([Merged(ks[0], ks[1])] + ks[2..]) == Content(ks)
  {
    hide Content, Chars;
    var rest := ks[2..];
    CharsAppend(ks[0].data, ks[1].data);
    ContentText(Merged(ks[0], ks[1]), rest);
    ContentText(ks[1], rest);
    ContentText(ks[0], [ks[1]] + rest);
    assert [ks[0]] + ([ks[1]] + rest) == ks;
  }

  /** Normalizing keeps all characters, all other nodes, and where the characters stand between them. */
  lemma {:induction false} ContentKept(ks: seq<Tree>)
    ensures Content(NormalKids(ks)) == Content(ks)
    decreases Counts(ks)
  {
    if ks == [] {
    } else if MergeNext(ks) {
      CountsMerged(ks);
      ContentMerged(ks);
      ContentKept([Merged(ks[0], ks[1])] + ks[2..]);
    } else {
      var r := NormalKids(ks);
      assert r[1..] == NormalKids(ks[1..]) && r[0] == Normal(ks[0]);
      CountsSplit(ks);
      ContentKept(ks[1..]);
      if !ks[0].text {
        ContentKept(ks[0].kids);
      }
    }
  }

  /** The first child is a text exactly when it was. */
  lemma {:induction false} FirstText(ks: seq<Tree>)
    ensures NormalKids(ks) == [] <==> ks == []
    ensures ks != [] ==> NormalKids(ks)[0].text == ks[0].text
    decreases Counts(ks)
  {
    if MergeNext(ks) {
      CountsMerged(ks);
      FirstText([Merged(ks[0], ks[1])] + ks[2..]);
    }
  }

  lemma {:induction false} NormalHasNoAdjacentTexts(ks: seq<Tree>)
    ensures NoAdjacentTexts(NormalKids(ks))
    decreases Counts(ks)
  {
    if ks == [] {
    } else if MergeNext(ks) {
      CountsMerged(ks);
      NormalHasNoAdjacentTexts([Merged(ks[0], ks[1])] + ks[2..]);
    } else {
      CountsSplit(ks);
      NormalHasNoAdjacentTexts(ks[0].kids);
      NormalHasNoAdjacentTexts(ks[1..]);
      FirstText(ks[1..]);
      NoAdjacentCons(Normal(ks[0]), NormalKids(ks[1..]));
    }
  }

  lemma NoAdjacentCons(t: Tree, ks: seq<Tree>)
    requires NoAdjacentTexts(t.kids) && NoAdjacentTexts(ks)
    requires ks != [] ==> !(t.text && ks[0].text)
    ensures NoAdjacentTexts([t] + ks)
  {
    var r := [t] + ks;
    forall i | 0 <= i < |r| - 1
      ensures !(r[i].text && r[i + 1].text)
    {
      if i > 0 {
        assert r[i] == ks[i - 1] && r[i + 1] == ks[i];
        assert !(ks[i - 1].text && ks[i - 1 + 1].text);
      }
    }
  }

  /** A tree is left as it is exactly when it has no adjacent texts. */
  lemma NormalFixed(ks: seq<Tree>)
    ensures NormalKids(ks) == ks <==> NoAdjacentTexts(ks)
  {
    NormalHasNoAdjacentTexts(ks);
    if NoAdjacentTexts(ks) {
      NormalOfNormal(ks);
    }
  }

  lemma {:induction false} NormalOfNormal(ks: seq<Tree>)
    requires NoAdjacentTexts(ks)
    ensures NormalKids(ks) == ks
    decreases Counts(ks)
  {
    if ks == [] {
    } else {
      assert |ks| > 1 ==> !(ks[0].text && ks[0 + 1].text);
      NoAdjacentTail(ks);
      CountsSplit(ks);
      NormalOfNormal(ks[0].kids);
      NormalOfNormal(ks[1..]);
      assert ks == [ks[0]] + ks[1..];
    }
  }

  lemma NoAdjacentTail(ks: seq<Tree>)
    requires ks != [] && NoAdjacentTexts(ks)
    ensures NoAdjacentTexts(ks[1..]) && NoAdjacentTexts(ks[0].kids)
  {
    var r := ks[1..];
    forall i | 0 <= i < |r| - 1
      ensures !(r[i].text && r[i + 1].text)
    {
      assert !(ks[i + 1].text && ks[i + 1 + 1].text);
    }
  }
}
