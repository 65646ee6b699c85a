/**
 The collaborative document of pkg/collaboration/document_crdt.go as one replica edits
 it: characters carry fractional positions, deleted ones stay as tombstones, and the
 text is read by sorting the visible characters.  Positions are reals, random
 identifiers are fresh numbers.  The sort is not stable, so equal positions may come
 out in any order.
 */
module Document {

  datatype Node = Node(id: nat, character: char, position: real, deleted: bool)

  // ---------------------------------------------------------------- visible characters in order

  function Visible(chars: seq<Node>): seq<Node> {
    if chars == [] then []
    else Visible(chars[..|chars| - 1]) + if chars[|chars| - 1].deleted then [] else [chars[|chars| - 1]]
  }

  ghost predicate Sorted(v: seq<Node>) {
    forall i, j :: 0 <= i < j < |v| ==> v[i].position <= v[j].position
  }

  ghost predicate Strict(v: seq<Node>) {
    forall i, j :: 0 <= i < j < |v| ==> v[i].position < v[j].position
  }

  /** A result the sort may give. */
  ghost predicate IsView(chars: seq<Node>, v: seq<Node>) {
    multiset(v) == multiset(Visible(chars)) && Sorted(v)
  }

  ghost predicate DistinctIds(chars: seq<Node>) {
    forall i, j :: 0 <= i < j < |chars| ==> chars[i].id != chars[j].id
  }

  function Text(v: seq<Node>): string {
    seq(|v|, i requires 0 <= i < |v| => v[i].character)
  }

  lemma SameElements(v: seq<Node>, w: seq<Node>, i: nat) returns (j: nat)
    requires multiset(v) == multiset(w) && i < |v|
    ensures j < |w| && w[j] == v[i] && |v| == |w|
  {
    assert v[i] in multiset(v);
    assert v[i] in multiset(w);
    assert |multiset(v)| == |v| && |multiset(w)| == |w|;
    j :| 0 <= j < |w| && w[j] == v[i];
  }

  /** What is part of `b + c` and shares nothing with `c` is no longer than `b`. */
  lemma PartFits(a: seq<Node>, b: seq<Node>, c: seq<Node>)
    requires multiset(a) <= multiset(b + c) && forall x :: x in a ==> x !in c
    ensures |a| <= |b|
  {
    var m, n := multiset(a), multiset(b);
    forall x ensures m[x] <= n[x] {
      if x in m {
        assert x in a && x !in multiset(c);
        assert multiset(b + c)[x] == n[x] + multiset(c)[x];
      }
    }
    assert n == m + (n - m);
    assert |m| == |a| && |n| == |b|;
  }

  lemma PositionNotBelow(v: seq<Node>, w: seq<Node>, i: nat)
    requires multiset(v) == multiset(w) && Sorted(v) && Sorted(w) && i < |v| == |w|
    ensures v[i].position >= w[i].position
  {
    if v[i].position < w[i].position {
      assert v == v[..i + 1] + v[i + 1..] && w == w[..i] + w[i..];
      assert multiset(v[..i + 1]) <= multiset(v);
      PartFits(v[..i + 1], w[..i], w[i..]);
    }
  }

  /** Whatever the sort does with ties, the positions come out the same. */
  lemma ViewsAgreeOnPositions(chars: seq<Node>, v: seq<Node>, w: seq<Node>)
    requires IsView(chars, v) && IsView(chars, w)
    ensures |v| == |w| && forall i :: 0 <= i < |v| ==> v[i].position == w[i].position
  {
    assert |multiset(v)| == |v| && |multiset(w)| == |w|;
    forall i | 0 <= i < |v| ensures v[i].position == w[i].position {
      PositionNotBelow(v, w, i);
      PositionNotBelow(w, v, i);
    }
  }

  /** Without ties there is one view only. */
  lemma StrictViewUnique(chars: seq<Node>, v: seq<Node>, w: seq<Node>)
    requires IsView(chars, v) && IsView(chars, w) && Strict(v)
    ensures v == w
  {
    ViewsAgreeOnPositions(chars, v, w);
    forall i | 0 <= i < |v| ensures v[i] == w[i] {
      var j := SameElements(v, w, i);
    }
  }

  lemma VisibleSnoc(chars: seq<Node>, c: Node)
    ensures Visible(chars + [c]) == Visible(chars) + if c.deleted then [] else [c]
  {
    assert (chars + [c])[..|chars|] == chars;
  }

  lemma {:induction false} VisibleConcat(a: seq<Node>, b: seq<Node>)
    ensures Visible(a + b) == Visible(a) + Visible(b)
    decreases |b|
  {
    if b == [] {
      assert a + b == a;
    } else {
      assert (a + b)[..|a + b| - 1] == a + b[..|b| - 1];
      VisibleConcat(a, b[..|b| - 1]);
    }
  }

  lemma {:induction false} AllVisible(b: seq<Node>)
    requires forall c :: c in b ==> !c.deleted
    ensures Visible(b) == b
    decreases |b|
  {
    if b != [] {
      var init, last := b[..|b| - 1], b[|b| - 1];
      assert b == init + [last];
      AllVisible(init);
      VisibleSnoc(init, last);
    }
  }

  lemma {:induction false} VisibleAreCharacters(chars: seq<Node>, c: Node)
    ensures c in Visible(chars) <==> c in chars && !c.deleted
    decreases |chars|
  {
    if chars != [] {
      VisibleAreCharacters(chars[..|chars| - 1], c);
      assert chars == chars[..|chars| - 1] + [chars[|chars| - 1]];
    }
  }

  /** Where a position belongs, after its equals. */
  function Slot(v: seq<Node>, x: real): (k: nat)
    requires Sorted(v)
    ensures k <= |v|
    ensures forall i :: 0 <= i < k ==> v[i].position <= x
    ensures forall i :: k <= i < |v| ==> x < v[i].position
  {
    if v == [] || v[|v| - 1].position <= x then |v| else Slot(v[..|v| - 1], x)
  }

  lemma SortedConcat(a: seq<Node>, b: seq<Node>, x: real)
    requires Sorted(a) && Sorted(b)
    requires (forall i :: 0 <= i < |a| ==> a[i].position <= x) && (forall i :: 0 <= i < |b| ==> x <= b[i].position)
    ensures Sorted(a + b)
  {
  }

  lemma SpliceMultiset(v: seq<Node>, k: nat, added: seq<Node>)
    requires k <= |v|
    ensures multiset(Splice(v, k, added)) == multiset(v) + multiset(added)
  {
    assert v == v[..k] + v[k..];
  }

  lemma PlacedSorted(front: seq<Node>, c: Node, back: seq<Node>)
    requires Sorted(front) && Sorted(back)
    requires forall i :: 0 <= i < |front| ==> front[i].position <= c.position
    requires forall i :: 0 <= i < |back| ==> c.position <= back[i].position
    ensures Sorted(front + [c] + back)
  {
    SortedConcat(front, [c], c.position);
    SortedConcat(front + [c], back, c.position);
  }

  lemma PlaceSorted(v: seq<Node>, c: Node)
    requires Sorted(v)
    ensures var r := Splice(v, Slot(v, c.position), [c]); Sorted(r) && multiset(r) == multiset(v) + multiset{c}
  {
    var k := Slot(v, c.position);
    SpliceMultiset(v, k, [c]);
    PlacedSorted(v[..k], c, v[k..]);
  }

  /** One view, to show that there always is one. */
  function SortByPosition(s: seq<Node>): (r: seq<Node>)
    ensures Sorted(r) && multiset(r) == multiset(s)
  {
    if s == [] then []
    else
      var init, last := SortByPosition(s[..|s| - 1]), s[|s| - 1];
      assert s == s[..|s| - 1] + [last];
      PlaceSorted(init, last);
      Splice(init, Slot(init, last.position), [last])
  }

  // ---------------------------------------------------------------- inserting

  /** Bytes of a character in UTF-8. */
  function Width(c: char): nat {
    if c as int < 0x80 then 1 else if c as int < 0x800 then 2 else if c as int < 0x10000 then 3 else 4
  }

  /** The byte offset of a character, which is what ranging over a string counts. */
  function Offset(content: string, i: nat): nat
    requires i <= |content|
  {
    if i == 0 then 0 else Offset(content, i - 1) + Width(content[i - 1])
  }

  lemma {:induction false} OffsetsIncrease(content: string, i: nat, j: nat)
    requires i < j <= |content|
    ensures Offset(content, i) < Offset(content, j)
    decreases j
  {
    if i < j - 1 {
      OffsetsIncrease(content, i, j - 1);
    }
  }

  const Increment: real := 0.00001

  function Start(v: seq<Node>, index: int): real {
    if index <= 0 then 0.0
    else if index >= |v| then (if v == [] then 1.0 else v[|v| - 1].position + 1.0)
    else (v[index - 1].position + v[index].position) / 2.0
  }

  /** The characters an insertion appends, numbered from `id`. */
  function NewNodes(start: real, content: string, id: nat): seq<Node> {
    seq(|content|, i requires 0 <= i < |content| =>
      Node(id + i, content[i], start + Offset(content, i) as real * Increment, false))
  }

  function Clamp(index: int, n: nat): (k: nat)
    ensures k <= n && (0 <= index <= n ==> k == index) && (index < 0 ==> k == 0) && (index > n ==> k == n)
  {
    if index <= 0 then 0 else if index >= n then n else index
  }

  function Splice<T>(s: seq<T>, k: nat, inserted: seq<T>): seq<T>
    requires k <= |s|
  {
    s[..k] + inserted + s[k..]
  }

  /** The last new character comes to stand before the character that follows the insertion point. */
  predicate Room(v: seq<Node>, index: int, content: string) {
    var k := Clamp(index, |v|);
    k < |v| && content != "" ==> Start(v, index) + Offset(content, |content| - 1) as real * Increment < v[k].position
  }

  /** A start is 0 at the front, one beyond the last position at the end, and otherwise halfway between its neighbours. */
  lemma StartPlaces(v: seq<Node>, index: int)
    ensures index <= 0 ==> Start(v, index) == 0.0
    ensures index > 0 && v == [] ==> Start(v, index) == 1.0
    ensures index > 0 && v != [] && index >= |v| ==> Start(v, index) - v[|v| - 1].position == 1.0
    ensures 0 < index < |v| ==> Start(v, index) - v[index - 1].position == v[index].position - Start(v, index)
  {
  }

  /** New characters carry the inserted text, follow each other at a hundred-thousandth per byte, and are told apart. */
  lemma NewNodesSpacing(start: real, content: string, id: nat, i: nat)
    requires i < |content|
    ensures var s := NewNodes(start, content, id);
            && |s| == |content| && s[i].character == content[i] && s[i].id == id + i && !s[i].deleted
            && (i + 1 < |content| ==> s[i + 1].position - s[i].position == Width(content[i]) as real * 0.00001)
  {
    if i + 1 < |content| {
      assert Offset(content, i + 1) == Offset(content, i) + Width(content[i]);
    }
  }

  /** A character takes the fewest bytes whose range it fits: up to U+007F, U+07FF, U+FFFF or beyond. */
  lemma WidthIsUtf8(c: char)
    ensures var last := [0x7F, 0x7FF, 0xFFFF, 0x10FFFF];
            1 <= Width(c) <= 4 && c as int <= last[Width(c) - 1] && (Width(c) > 1 ==> c as int > last[Width(c) - 2])
  {
  }

  lemma NewNodesIncrease(start: real, content: string, id: nat)
    ensures Strict(NewNodes(start, content, id))
    ensures forall c :: c in NewNodes(start, content, id) ==> start <= c.position && c.id >= id && !c.deleted
    ensures content != "" ==> NewNodes(start, content, id)[0].position == start
  {
    var s := NewNodes(start, content, id);
    forall i, j | 0 <= i < j < |s| ensures s[i].position < s[j].position {
      OffsetsIncrease(content, i, j);
    }
  }

  /** The start of an insertion comes after the character before it. */
  lemma StartAfterPrevious(v: seq<Node>, index: int)
    requires Strict(v)
    ensures var k := Clamp(index, |v|); k > 0 ==> v[k - 1].position < Start(v, index)
  {
  }

  lemma AppendVisible(chars: seq<Node>, added: seq<Node>)
    requires forall c :: c in added ==> !c.deleted
    ensures Visible(chars + added) == Visible(chars) + added
  {
    VisibleConcat(chars, added);
    AllVisible(added);
  }

  lemma {:induction false} SpliceVisible(chars: seq<Node>, v: seq<Node>, k: nat, added: seq<Node>)
    requires IsView(chars, v) && k <= |v| && forall c :: c in added ==> !c.deleted
    ensures multiset(Splice(v, k, added)) == multiset(Visible(chars + added))
  {
    AppendVisible(chars, added);
    SpliceMultiset(v, k, added);
  }

  lemma StrictConcat(a: seq<Node>, b: seq<Node>)
    requires Strict(a) && Strict(b) && (a != [] && b != [] ==> a[|a| - 1].position < b[0].position)
    ensures Strict(a + b)
  {
    forall i, j | 0 <= i < |a| && 0 <= j < |b| ensures a[i].position < b[j].position {
      assert a[i].position <= a[|a| - 1].position && b[0].position <= b[j].position;
    }
  }

  lemma RoomKeepsStrict(v: seq<Node>, index: int, content: string, id: nat)
    requires Strict(v) && Room(v, index, content)
    ensures Strict(Splice(v, Clamp(index, |v|), NewNodes(Start(v, index), content, id)))
  {
    var k, added := Clamp(index, |v|), NewNodes(Start(v, index), content, id);
    NewNodesIncrease(Start(v, index), content, id);
    StartAfterPrevious(v, index);
    if content == "" {
      assert Splice(v, k, added) == v;
    } else {
      StrictConcat(v[..k], added);
      StrictConcat(v[..k] + added, v[k..]);
    }
  }

  /** Swapping neighbours with equal positions gives another view. */
  lemma SwapEqual(v: seq<Node>, i: nat)
    requires Sorted(v) && i + 1 < |v| && v[i].position == v[i + 1].position
    ensures Sorted(v[i := v[i + 1]][i + 1 := v[i]])
    ensures multiset(v[i := v[i + 1]][i + 1 := v[i]]) == multiset(v)
  {
  }

  /** A view is not the only one if two neighbours of it are not strictly increasing. */
  lemma OtherView(chars: seq<Node>, s: seq<Node>, i: nat) returns (w: seq<Node>)
    requires multiset(s) == multiset(Visible(chars))
    requires i + 1 < |s| && s[i].position >= s[i + 1].position && s[i] != s[i + 1]
    ensures IsView(chars, w) && w != s
  {
    w := SortByPosition(s);
    if w == s {
      SwapEqual(s, i);
      w := s[i := s[i + 1]][i + 1 := s[i]];
    }
  }

  lemma ViewIsOld(chars: seq<Node>, v: seq<Node>, k: nat, id: nat)
    requires IsView(chars, v) && k < |v| && forall c :: c in chars ==> c.id < id
    ensures v[k] in Visible(chars) && v[k] in chars && v[k].id < id
  {
    assert v[k] in multiset(v);
    assert v[k] in multiset(Visible(chars));
    VisibleAreCharacters(chars, v[k]);
  }

  /** Without room, the last new character does not come before the one that follows it. */
  lemma NoRoomPair(v: seq<Node>, index: int, content: string, id: nat) returns (i: nat)
    requires !Room(v, index, content) && forall c :: c in v ==> c.id < id
    ensures var s := Splice(v, Clamp(index, |v|), NewNodes(Start(v, index), content, id));
            i + 1 < |s| && s[i].position >= s[i + 1].position && s[i] != s[i + 1]
  {
    var k, added := Clamp(index, |v|), NewNodes(Start(v, index), content, id);
    i := k + |added| - 1;
    SplicedPair(v, k, added);
    assert v[k] in v;
  }

  lemma SplicedPair(v: seq<Node>, k: nat, added: seq<Node>)
    requires k < |v| && added != []
    ensures var s, i := Splice(v, k, added), k + |added| - 1; s[i] == added[|added| - 1] && s[i + 1] == v[k]
  {
  }

  /** Without room, the sort may give something else than the spliced characters. */
  lemma {:induction false} NoRoomOtherView(chars: seq<Node>, v: seq<Node>, index: int, content: string, id: nat) returns (w: seq<Node>)
    requires IsView(chars, v) && !Room(v, index, content)
    requires forall c :: c in chars ==> c.id < id
    ensures var added := NewNodes(Start(v, index), content, id);
            IsView(chars + added, w) && w != Splice(v, Clamp(index, |v|), added)
  {
    var k, added := Clamp(index, |v|), NewNodes(Start(v, index), content, id);
    NewNodesIncrease(Start(v, index), content, id);
    SpliceVisible(chars, v, k, added);
    forall c | c in v ensures c.id < id {
      var j :| 0 <= j < |v| && v[j] == c;
      ViewIsOld(chars, v, j, id);
    }
    var i := NoRoomPair(v, index, content, id);
    w := OtherView(chars + added, Splice(v, k, added), i);
  }

  /** Whatever the sort does with ties, the visible characters after the insertion are the old ones with the new ones spliced in. */
  ghost predicate Splices(chars: seq<Node>, v: seq<Node>, index: int, content: string, id: nat) {
    var added := NewNodes(Start(v, index), content, id);
    forall w :: IsView(chars + added, w) ==> w == Splice(v, Clamp(index, |v|), added)
  }

  /**
   Insert splices the visible characters if and only if there is room; and then the
   positions stay strictly increasing.
   */
  lemma InsertSplicesIff(chars: seq<Node>, v: seq<Node>, index: int, content: string, id: nat)
    requires IsView(chars, v) && Strict(v)
    requires forall c :: c in chars ==> c.id < id
    ensures var added := NewNodes(Start(v, index), content, id);
            var spliced := Splice(v, Clamp(index, |v|), added);
            && (Splices(chars, v, index, content, id) <==> Room(v, index, content))
            && (Room(v, index, content) ==> IsView(chars + added, spliced) && Strict(spliced))
  {
    var k, added := Clamp(index, |v|), NewNodes(Start(v, index), content, id);
    var spliced := Splice(v, k, added);
    if Room(v, index, content) {
      RoomKeepsStrict(v, index, content, id);
      NewNodesIncrease(Start(v, index), content, id);
      SpliceVisible(chars, v, k, added);
      forall w | IsView(chars + added, w) ensures w == spliced {
        StrictViewUnique(chars + added, spliced, w);
      }
    } else {
      var w := NoRoomOtherView(chars, v, index, content, id);
    }
  }

  /** Appending always has room; prepending to a text that starts at position 0 never has. */
  lemma RoomAtTheEnds(v: seq<Node>, index: int, content: string)
    ensures index >= |v| ==> Room(v, index, content)
    ensures index <= 0 && v != [] && v[0].position <= 0.0 && content != "" ==> !Room(v, index, content)
  {
  }

  /** So of two insertions at the front in a row, the second never has room. */
  lemma SecondPrependHasNoRoom(v: seq<Node>, first: int, content: string, id: nat, second: int, more: string)
    requires first <= 0 && second <= 0 && content != "" && more != ""
    ensures !Room(Splice(v, 0, NewNodes(Start(v, first), content, id)), second, more)
  {
    NewNodesIncrease(Start(v, first), content, id);
    RoomAtTheEnds(Splice(v, 0, NewNodes(Start(v, first), content, id)), second, more);
  }

  /** Inserting "a" and then "b" at the front of an empty document may read as either order. */
  lemma PrependTwiceIsAmbiguous()
    ensures var a, b := Node(0, 'a', 0.0, false), Node(1, 'b', 0.0, false);
            && NewNodes(Start([], 0), "a", 0) == [a] && NewNodes(Start([a], 0), "b", 1) == [b]
            && IsView([a, b], [a, b]) && IsView([a, b], [b, a])
  {
    var a, b := Node(0, 'a', 0.0, false), Node(1, 'b', 0.0, false);
    AllVisible([a, b]);
    assert Offset("a", 0) == 0 && Offset("b", 0) == 0;
    assert multiset([a, b]) == multiset([b, a]);
  }

  // ---------------------------------------------------------------- what the text says

  /** Visible characters at one position are the same letter. */
  ghost predicate TiesAlike(chars: seq<Node>) {
    forall i, j :: 0 <= i < j < |Visible(chars)| && Visible(chars)[i].position == Visible(chars)[j].position ==>
      Visible(chars)[i].character == Visible(chars)[j].character
  }

  lemma SwapTies(chars: seq<Node>, v: seq<Node>, i: nat, j: nat)
    requires IsView(chars, v) && i < j < |v| && v[i].position == v[j].position
    ensures IsView(chars, v[i := v[j]][j := v[i]])
  {
    var w := v[i := v[j]][j := v[i]];
    assert forall k :: 0 <= k < |v| ==> w[k].position == v[k].position;
    assert multiset(w) == multiset(v);
  }

  lemma ViewTiesAlike(chars: seq<Node>, v: seq<Node>, w: seq<Node>, k: nat)
    requires IsView(chars, v) && IsView(chars, w) && TiesAlike(chars) && k < |v| == |w|
    ensures v[k].character == w[k].character
  {
    ViewsAgreeOnPositions(chars, v, w);
    var i := SameElements(v, Visible(chars), k);
    var j := SameElements(w, Visible(chars), k);
    assert Visible(chars)[i] == v[k] && Visible(chars)[j] == w[k];
  }

  lemma TiedPair(chars: seq<Node>, v: seq<Node>) returns (i: nat, j: nat)
    requires IsView(chars, v) && !TiesAlike(chars)
    ensures i < j < |v| && v[i].position == v[j].position && v[i].character != v[j].character
  {
    var a, b :| 0 <= a < b < |Visible(chars)| && Visible(chars)[a].position == Visible(chars)[b].position
                && Visible(chars)[a].character != Visible(chars)[b].character;
    i := SameElements(Visible(chars), v, a);
    j := SameElements(Visible(chars), v, b);
    if j < i {
      i, j := j, i;
    }
  }

  /**
   Whatever the sort does with ties, the document reads as `text` if and only if
   characters at one position are the same letter and one view reads so.
   */
  lemma TextDeterminedIff(chars: seq<Node>, v: seq<Node>, text: string)
    requires IsView(chars, v)
    ensures (forall w :: IsView(chars, w) ==> Text(w) == text) <==> TiesAlike(chars) && Text(v) == text
  {
    if TiesAlike(chars) {
      forall w: seq<Node> | IsView(chars, w) ensures Text(w) == Text(v) {
        ViewsAgreeOnPositions(chars, v, w);
        forall k | 0 <= k < |v| ensures v[k].character == w[k].character {
          ViewTiesAlike(chars, v, w, k);
        }
      }
    } else {
      var i, j := TiedPair(chars, v);
      SwapTies(chars, v, i, j);
      var w := v[i := v[j]][j := v[i]];
      assert Text(w)[i] != Text(v)[i];
    }
  }

  /**
   Prepending one letter to a document that starts at position 0 has no room; the text
   still comes out right, whatever the sort does, if and only if it starts with that letter already.
   */
  lemma PrependLetterReadsIff(chars: seq<Node>, v: seq<Node>, index: int, letter: char, id: nat)
    requires IsView(chars, v) && Strict(v) && v != [] && v[0].position == 0.0 && index <= 0
    ensures (forall w :: IsView(chars + NewNodes(Start(v, index), [letter], id), w) ==> Text(w) == [letter] + Text(v))
       <==> v[0].character == letter
  {
    var n := Node(id, letter, 0.0, false);
    assert Offset([letter], 0) == 0;
    assert NewNodes(Start(v, index), [letter], id) == [n];
    PrependedView(chars, v, n);
    TextDeterminedIff(chars + [n], [n] + v, [letter] + Text(v));
    PrependTies(chars, v, n);
  }

  lemma PrependedView(chars: seq<Node>, v: seq<Node>, n: Node)
    requires IsView(chars, v) && Strict(v) && v != [] && v[0].position == n.position && !n.deleted
    ensures IsView(chars + [n], [n] + v) && Text([n] + v) == [n.character] + Text(v)
  {
    PrependedMultiset(chars, v, n);
    PrependedSorted(v, n);
    PrependedText(v, n);
  }

  lemma PrependedMultiset(chars: seq<Node>, v: seq<Node>, n: Node)
    requires multiset(v) == multiset(Visible(chars)) && !n.deleted
    ensures multiset([n] + v) == multiset(Visible(chars + [n]))
  {
    VisibleSnoc(chars, n);
  }

  lemma PrependedSorted(v: seq<Node>, n: Node)
    requires Strict(v) && (v != [] ==> n.position <= v[0].position)
    ensures Sorted([n] + v)
  {
  }

  lemma PrependedText(v: seq<Node>, n: Node)
    ensures Text([n] + v) == [n.character] + Text(v)
  {
  }

  lemma PrependTies(chars: seq<Node>, v: seq<Node>, n: Node)
    requires IsView(chars, v) && Strict(v) && v != [] && v[0].position == n.position && !n.deleted
    ensures TiesAlike(chars + [n]) <==> v[0].character == n.character
  {
    VisibleSnoc(chars, n);
    var old_, all := Visible(chars), Visible(chars + [n]);
    var k := SameElements(v, old_, 0);
    assert all[k] == v[0] && all[|old_|] == n;
    forall i, j | 0 <= i < j < |old_| ensures all[i].position != all[j].position {
      StrictDistinct(v, old_, i, j);
    }
    forall i | 0 <= i < |old_| && all[i].position == n.position ensures all[i] == v[0] {
      var a := SameElements(old_, v, i);
    }
  }

  lemma StrictDistinct(v: seq<Node>, s: seq<Node>, i: nat, j: nat)
    requires Strict(v) && multiset(v) == multiset(s) && i < j < |s|
    ensures s[i].position != s[j].position
  {
    if s[i].position == s[j].position {
      var a := SameElements(s, v, i);
      var b := SameElements(s, v, j);
      assert a == b && s[i] == s[j];
      TwiceIn(s, i, j);
      OnceIn(v, a);
    }
  }

  lemma TwiceIn(s: seq<Node>, i: nat, j: nat)
    requires i < j < |s| && s[i] == s[j]
    ensures multiset(s)[s[i]] >= 2
  {
    assert s == s[..j] + [s[j]] + s[j + 1..];
    assert s[i] in s[..j];
  }

  lemma OnceIn(v: seq<Node>, a: nat)
    requires Strict(v) && a < |v|
    ensures multiset(v)[v[a]] == 1
  {
    assert v == v[..a] + [v[a]] + v[a + 1..];
    assert v[a] !in v[..a] && v[a] !in v[a + 1..];
  }

  // ---------------------------------------------------------------- deleting

  function Cut<T>(s: seq<T>, from: nat, to: nat): seq<T>
    requires from <= to <= |s|
  {
    s[..from] + s[to..]
  }

  function Ids(s: seq<Node>): set<nat> {
    set c | c in s :: c.id
  }

  function DeletedIds(chars: seq<Node>): set<nat> {
    set c | c in chars && c.deleted :: c.id
  }

  /** The characters with these identifiers become tombstones, every other one stays as and where it is. */
  function Marked(chars: seq<Node>, ids: set<nat>): seq<Node> {
    seq(|chars|, i requires 0 <= i < |chars| =>
      if chars[i].id in ids then chars[i].(deleted := true) else chars[i])
  }

  lemma {:induction false} VisibleAround(a: seq<Node>, c: Node, b: seq<Node>)
    ensures Visible(a + [c] + b) == Visible(a) + (if c.deleted then [] else [c]) + Visible(b)
  {
    VisibleSnoc(a, c);
    VisibleConcat(a + [c], b);
  }

  lemma SplitAt(chars: seq<Node>, i: nat, c: Node)
    requires i < |chars|
    ensures chars[i := c] == chars[..i] + [c] + chars[i + 1..]
    ensures chars == chars[..i] + [chars[i]] + chars[i + 1..]
  {
  }

  lemma TakeOut(x: seq<Node>, c: Node, y: seq<Node>)
    ensures multiset(x + [c] + y) == multiset(x + [] + y) + multiset{c}
  {
  }

  function Tombstone(chars: seq<Node>, k: nat): seq<Node>
    requires k < |chars|
  {
    chars[k := chars[k].(deleted := true)]
  }

  /** Of the visible characters exactly this one goes. */
  lemma TombstoneHides(chars: seq<Node>, k: nat)
    requires k < |chars| && !chars[k].deleted
    ensures multiset(Visible(chars)) == multiset(Visible(Tombstone(chars, k))) + multiset{chars[k]}
  {
    SplitAt(chars, k, chars[k].(deleted := true));
    VisibleAround(chars[..k], chars[k], chars[k + 1..]);
    VisibleAround(chars[..k], chars[k].(deleted := true), chars[k + 1..]);
    TakeOut(Visible(chars[..k]), chars[k], Visible(chars[k + 1..]));
  }

  lemma TombstoneDistinct(chars: seq<Node>, k: nat)
    requires DistinctIds(chars) && k < |chars|
    ensures DistinctIds(Tombstone(chars, k))
  {
  }

  lemma TombstoneIsMarked(chars: seq<Node>, k: nat)
    requires DistinctIds(chars) && k < |chars|
    ensures Tombstone(chars, k) == Marked(chars, {chars[k].id})
  {
    forall i | 0 <= i < |chars| ensures Tombstone(chars, k)[i] == Marked(chars, {chars[k].id})[i] {
      assert i != k ==> chars[i].id != chars[k].id;
    }
  }

  lemma TombstoneIds(chars: seq<Node>, k: nat)
    requires k < |chars|
    ensures DeletedIds(Tombstone(chars, k)) == DeletedIds(chars) + {chars[k].id}
  {
    var after := Tombstone(chars, k);
    assert after[k] in after;
    forall d | d in DeletedIds(chars) ensures d in DeletedIds(after) {
      var c :| c in chars && c.deleted && c.id == d;
      var i :| 0 <= i < |chars| && chars[i] == c;
      assert after[i] in after && after[i].deleted && after[i].id == d;
    }
    forall d | d in DeletedIds(after) ensures d in DeletedIds(chars) + {chars[k].id} {
      var c :| c in after && c.deleted && c.id == d;
      var i :| 0 <= i < |after| && after[i] == c;
      assert chars[i] in chars;
    }
  }

  lemma MarkedTwice(chars: seq<Node>, ids: set<nat>, id: nat)
    ensures Marked(Marked(chars, ids), {id}) == Marked(chars, ids + {id})
  {
  }

  lemma IdsSnoc(s: seq<Node>, c: Node)
    ensures Ids(s + [c]) == Ids(s) + {c.id}
  {
    assert c in s + [c];
    forall id | id in Ids(s) ensures id in Ids(s + [c]) {
      var x :| x in s && x.id == id;
      assert x in s + [c];
    }
  }

  /** Deleting a slice of the view leaves a view, and strict positions stay strict. */
  lemma CutSorted(v: seq<Node>, from: nat, to: nat)
    requires from <= to <= |v|
    ensures Sorted(v) ==> Sorted(Cut(v, from, to))
    ensures Strict(v) ==> Strict(Cut(v, from, to))
  {
  }

  lemma CutNext(v: seq<Node>, from: nat, i: nat)
    requires from < i <= |v|
    ensures v[i - 1] in multiset(Cut(v, from, i - 1))
    ensures multiset(Cut(v, from, i - 1)) == multiset(Cut(v, from, i)) + multiset{v[i - 1]}
  {
    assert v[i - 1..] == [v[i - 1]] + v[i..];
    assert Cut(v, from, i - 1) == v[..from] + [v[i - 1]] + v[i..];
    TakeOut(v[..from], v[i - 1], v[i..]);
    assert v[..from] + [] == v[..from];
  }

  /** The first slots `from..i` of a slice are tombstones. */
  ghost predicate MarkedUpTo(chars: seq<Node>, v: seq<Node>, from: nat, i: nat, after: seq<Node>)
    requires from <= i <= |v|
  {
    && after == Marked(chars, Ids(v[from..i]))
    && multiset(Visible(after)) == multiset(Cut(v, from, i))
  }

  lemma IdsNext(v: seq<Node>, from: nat, i: nat)
    requires from < i <= |v|
    ensures Ids(v[from..i]) == Ids(v[from..i - 1]) + {v[i - 1].id}
  {
    assert v[from..i] == v[from..i - 1] + [v[i - 1]];
    IdsSnoc(v[from..i - 1], v[i - 1]);
  }

  /** The first index at which a character with this identifier stands, or the end. */
  function IndexOf(chars: seq<Node>, id: nat): (k: nat)
    ensures k <= |chars| && (k < |chars| ==> chars[k].id == id)
    ensures forall i :: 0 <= i < k ==> chars[i].id != id
  {
    if chars == [] || chars[0].id == id then 0 else 1 + IndexOf(chars[1..], id)
  }

  lemma FoundAt(chars: seq<Node>, c: Node)
    requires DistinctIds(chars) && c in chars
    ensures IndexOf(chars, c.id) < |chars| && chars[IndexOf(chars, c.id)] == c
  {
    var i :| 0 <= i < |chars| && chars[i] == c;
    var k := IndexOf(chars, c.id);
    assert k <= i;
  }

  /** The characters and the set of tombstones, which deletion changes together. */
  datatype Marks = Marks(chars: seq<Node>, tombs: set<nat>)

  /** What the inner loop of applyDelete does. */
  function MarkFirst(m: Marks, id: nat): Marks {
    var k := IndexOf(m.chars, id);
    if k < |m.chars| then Marks(Tombstone(m.chars, k), m.tombs + {id}) else m
  }

  /** What its outer loop does: the slots `from..i` of a view are marked one by one. */
  function MarkEach(m: Marks, v: seq<Node>, from: nat, i: nat): Marks
    requires from <= i <= |v|
    decreases i
  {
    if i == from then m else MarkFirst(MarkEach(m, v, from, i - 1), v[i - 1].id)
  }

  /** How far the marking of a slice has come. */
  ghost predicate Marking(m: Marks, chars: seq<Node>, v: seq<Node>, from: nat, i: nat) {
    && from <= i <= |v|
    && DistinctIds(m.chars) && m.tombs == DeletedIds(m.chars)
    && MarkedUpTo(chars, v, from, i, m.chars)
  }

  lemma CutNothing(v: seq<Node>, from: nat)
    requires from <= |v|
    ensures Cut(v, from, from) == v && Ids(v[from..from]) == {}
  {
  }

  lemma MarkingNone(m: Marks, v: seq<Node>, from: nat)
    requires DistinctIds(m.chars) && m.tombs == DeletedIds(m.chars)
    requires multiset(v) == multiset(Visible(m.chars)) && from <= |v|
    ensures Marking(m, m.chars, v, from, from)
  {
    CutNothing(v, from);
    assert Marked(m.chars, {}) == m.chars;
  }

  /** The character to mark next is visible, and found. */
  lemma NextIsFound(now: seq<Node>, v: seq<Node>, from: nat, i: nat)
    requires from < i <= |v| && DistinctIds(now) && multiset(Visible(now)) == multiset(Cut(v, from, i - 1))
    ensures IndexOf(now, v[i - 1].id) < |now| && now[IndexOf(now, v[i - 1].id)] == v[i - 1] && !v[i - 1].deleted
  {
    CutNext(v, from, i);
    assert v[i - 1] in multiset(Visible(now));
    VisibleAreCharacters(now, v[i - 1]);
    FoundAt(now, v[i - 1]);
  }

  lemma NextIsHidden(now: seq<Node>, k: nat, v: seq<Node>, from: nat, i: nat, after: seq<Node>)
    requires from < i <= |v| && k < |now| && now[k] == v[i - 1] && !v[i - 1].deleted && after == Tombstone(now, k)
    requires multiset(Visible(now)) == multiset(Cut(v, from, i - 1))
    ensures multiset(Visible(after)) == multiset(Cut(v, from, i))
  {
    CutNext(v, from, i);
    TombstoneHides(now, k);
    Cancel(multiset(Visible(after)), multiset(Cut(v, from, i)), v[i - 1]);
  }

  lemma NextIsMarked(chars: seq<Node>, now: seq<Node>, k: nat, v: seq<Node>, from: nat, i: nat, after: seq<Node>)
    requires from < i <= |v| && DistinctIds(now) && k < |now| && now[k] == v[i - 1] && after == Tombstone(now, k)
    requires now == Marked(chars, Ids(v[from..i - 1]))
    ensures after == Marked(chars, Ids(v[from..i]))
  {
    TombstoneIsMarked(now, k);
    MarkedTwice(chars, Ids(v[from..i - 1]), v[i - 1].id);
    IdsNext(v, from, i);
  }

  lemma NextMarked(now: seq<Node>, k: nat, chars: seq<Node>, v: seq<Node>, from: nat, i: nat, after: seq<Node>)
    requires from < i <= |v| && k < |now| && now[k] == v[i - 1] && !v[i - 1].deleted && after == Tombstone(now, k)
    requires DistinctIds(now) && MarkedUpTo(chars, v, from, i - 1, now)
    ensures MarkedUpTo(chars, v, from, i, after)
  {
    NextIsHidden(now, k, v, from, i, after);
    NextIsMarked(chars, now, k, v, from, i, after);
  }

  lemma MarkingNext(m: Marks, next: Marks, chars: seq<Node>, v: seq<Node>, from: nat, i: nat)
    requires from < i <= |v| && Marking(m, chars, v, from, i - 1) && next == MarkFirst(m, v[i - 1].id)
    ensures Marking(next, chars, v, from, i)
  {
    NextIsFound(m.chars, v, from, i);
    var k := IndexOf(m.chars, v[i - 1].id);
    NextMarked(m.chars, k, chars, v, from, i, next.chars);
    TombstoneDistinct(m.chars, k);
    TombstoneIds(m.chars, k);
  }

  lemma {:induction false} MarkEachMarks(m: Marks, chars: seq<Node>, v: seq<Node>, from: nat, i: nat, done: Marks)
    requires Marking(m, chars, v, from, from) && from <= i <= |v| && done == MarkEach(m, v, from, i)
    ensures Marking(done, chars, v, from, i)
    decreases i
  {
    if i > from {
      var before := MarkEach(m, v, from, i - 1);
      MarkEachMarks(m, chars, v, from, i - 1, before);
      MarkingNext(before, done, chars, v, from, i);
    }
  }

  lemma Cancel(a: multiset<Node>, b: multiset<Node>, c: Node)
    requires a + multiset{c} == b + multiset{c}
    ensures a == b
  {
    assert a == a + multiset{c} - multiset{c};
    assert b == b + multiset{c} - multiset{c};
  }

  lemma AddedIds(chars: seq<Node>, added: seq<Node>, id: nat)
    requires DistinctIds(chars) && forall c :: c in chars ==> c.id < id
    requires forall i :: 0 <= i < |added| ==> added[i].id == id + i && !added[i].deleted
    ensures DistinctIds(chars + added) && forall c :: c in chars + added ==> c.id < id + |added|
    ensures DeletedIds(chars + added) == DeletedIds(chars)
  {
    forall c | c in chars && c.deleted ensures c in chars + added {
    }
  }

  lemma InsertedLength(chars: seq<Node>, v: seq<Node>, k: nat, added: seq<Node>, w: seq<Node>)
    requires IsView(chars, v) && k <= |v| && IsView(chars + added, w) && forall c :: c in added ==> !c.deleted
    ensures |w| == |v| + |added|
  {
    SpliceVisible(chars, v, k, added);
    SameLength(w, Splice(v, k, added));
  }

  lemma NewNodesText(start: real, content: string, id: nat)
    ensures Text(NewNodes(start, content, id)) == content
  {
  }

  /** The text of the view after an insertion that had room is the spliced text. */
  lemma InsertedText(chars: seq<Node>, v: seq<Node>, index: int, content: string, id: nat, w: seq<Node>)
    requires IsView(chars, v) && Strict(v) && Room(v, index, content) && forall c :: c in chars ==> c.id < id
    requires IsView(chars + NewNodes(Start(v, index), content, id), w)
    ensures Strict(w) && Text(w) == Splice(Text(v), Clamp(index, |v|), content)
  {
    InsertSplicesIff(chars, v, index, content, id);
    NewNodesText(Start(v, index), content, id);
    SpliceText(v, Clamp(index, |v|), NewNodes(Start(v, index), content, id));
  }

  lemma InsertedView(chars: seq<Node>, v: seq<Node>, index: int, content: string, id: nat, w: seq<Node>)
    requires IsView(chars, v) && forall c :: c in chars ==> c.id < id
    requires IsView(chars + NewNodes(Start(v, index), content, id), w)
    ensures |w| == |v| + |content|
    ensures Strict(v) && Room(v, index, content) ==>
              Strict(w) && Text(w) == Splice(Text(v), Clamp(index, |v|), content)
  {
    NewNodesIncrease(Start(v, index), content, id);
    InsertedLength(chars, v, Clamp(index, |v|), NewNodes(Start(v, index), content, id), w);
    if Strict(v) && Room(v, index, content) {
      InsertedText(chars, v, index, content, id, w);
    }
  }

  lemma SpliceText(v: seq<Node>, k: nat, added: seq<Node>)
    requires k <= |v|
    ensures Text(Splice(v, k, added)) == Splice(Text(v), k, Text(added))
  {
  }

  lemma CutText(v: seq<Node>, from: nat, to: nat)
    requires from <= to <= |v|
    ensures Text(Cut(v, from, to)) == Cut(Text(v), from, to)
  {
  }

  lemma SameLength(v: seq<Node>, w: seq<Node>)
    requires multiset(v) == multiset(w)
    ensures |v| == |w|
  {
    assert |multiset(v)| == |v| && |multiset(w)| == |w|;
  }

  lemma MarkedKeepsIds(chars: seq<Node>, ids: set<nat>, bound: nat)
    requires forall c :: c in chars ==> c.id < bound
    ensures forall c :: c in Marked(chars, ids) ==> c.id < bound
  {
    forall c | c in Marked(chars, ids) ensures c.id < bound {
      var i :| 0 <= i < |chars| && Marked(chars, ids)[i] == c;
      assert chars[i] in chars;
    }
  }

  /** The text of the view after a deletion is the text with the slice cut out. */
  lemma DeletedView(chars: seq<Node>, v: seq<Node>, from: nat, to: nat, after: seq<Node>, w: seq<Node>)
    requires IsView(chars, v) && from <= to <= |v|
    requires IsView(after, Cut(v, from, to)) && IsView(after, w)
    ensures |w| == |v| - (to - from)
    ensures Strict(v) ==> Strict(w) && Text(w) == Cut(Text(v), from, to)
  {
    SameLength(w, Cut(v, from, to));
    if Strict(v) {
      CutSorted(v, from, to);
      StrictViewUnique(after, Cut(v, from, to), w);
      CutText(v, from, to);
    }
  }

  /** What every document keeps: `view` is a result the sort may give. */
  ghost predicate Sound(chars: seq<Node>, tombstones: set<nat>, id: nat, view: seq<Node>) {
    && DistinctIds(chars)
    && (forall c :: c in chars ==> c.id < id)
    && tombstones == DeletedIds(chars)
    && IsView(chars, view)
  }

  /** The view is the only one and reads as the edited text. */
  ghost predicate Exact(view: seq<Node>, text: string) {
    Strict(view) && Text(view) == text
  }

  lemma InsertKeepsSound(chars: seq<Node>, tombstones: set<nat>, id: nat, view: seq<Node>, text: string,
                         index: int, content: string) returns (view': seq<Node>)
    requires Sound(chars, tombstones, id, view) && |text| == |view|
    ensures Sound(chars + NewNodes(Start(view, index), content, id), tombstones, id + |content|, view')
    ensures |view'| == |Splice(text, Clamp(index, |text|), content)|
    ensures Exact(view, text) && Room(view, index, content) ==> Exact(view', Splice(text, Clamp(index, |text|), content))
  {
    var added := NewNodes(Start(view, index), content, id);
    AddedIds(chars, added, id);
    view' := SortByPosition(Visible(chars + added));
    InsertedView(chars, view, index, content, id, view');
  }

  lemma MarkedDistinct(chars: seq<Node>, ids: set<nat>)
    requires DistinctIds(chars)
    ensures DistinctIds(Marked(chars, ids))
  {
  }

  lemma DeleteKeepsSound(chars: seq<Node>, tombstones: set<nat>, id: nat, view: seq<Node>, text: string,
                         v: seq<Node>, from: nat, to: nat, after: seq<Node>) returns (view': seq<Node>)
    requires Sound(chars, tombstones, id, view) && |text| == |view|
    requires IsView(chars, v) && from <= to <= |v| == |text| && MarkedUpTo(chars, v, from, to, after)
    ensures Sound(after, DeletedIds(after), id, view') && IsView(after, Cut(v, from, to))
    ensures |view'| == |Cut(text, from, to)|
    ensures Exact(view, text) ==> Exact(view', Cut(text, from, to))
  {
    CutSorted(v, from, to);
    MarkedDistinct(chars, Ids(v[from..to]));
    view' := SortByPosition(Visible(after));
    MarkedKeepsIds(chars, Ids(v[from..to]), id);
    if Exact(view, text) {
      StrictViewUnique(chars, view, v);
    }
    DeletedView(chars, v, from, to, after, view');
  }

  /** The marking loops do what a deletion should. */
  lemma MarkEachDeletes(chars: seq<Node>, tombstones: set<nat>, id: nat, view: seq<Node>, text: string,
                        v: seq<Node>, from: nat, to: nat, done: Marks) returns (view': seq<Node>)
    requires Sound(chars, tombstones, id, view) && |text| == |view|
    requires IsView(chars, v) && from <= to <= |v| == |text| && done == MarkEach(Marks(chars, tombstones), v, from, to)
    ensures Sound(done.chars, done.tombs, id, view') && MarkedUpTo(chars, v, from, to, done.chars)
    ensures |view'| == |Cut(text, from, to)|
    ensures Exact(view, text) ==> Exact(view', Cut(text, from, to))
  {
    MarkingNone(Marks(chars, tombstones), v, from);
    MarkEachMarks(Marks(chars, tombstones), chars, v, from, to, done);
    view' := DeleteKeepsSound(chars, tombstones, id, view, text, v, from, to, done.chars);
  }

  // ---------------------------------------------------------------- the document

  datatype Operation = Inserted(position: int, content: string) | Removed(position: int, length: int)

  /** The slice a deletion removes from `n` characters, or how it fails. */
  datatype Bounds = Beyond | Before | Between(from: nat, to: nat)

  /** Too far right is an error, too far left indexes out of range; otherwise the slice ends at the last character. */
  function DeleteBounds(position: int, length: int, n: nat): (r: Bounds)
    ensures r.Between? ==> r.from <= r.to <= n
    ensures r.Beyond? <==> position >= n
    ensures r.Before? <==> position < 0 && length > 0
    ensures r.Between? && length > 0 ==> r.from == position && r.to - r.from == if length < n - position then length else n - position
    ensures r.Between? && length <= 0 ==> r.from == r.to
  {
    if position >= n then Beyond
    else if length <= 0 then Between(Clamp(position, n), Clamp(position, n))
    else if position < 0 then Before
    else Between(position, Clamp(position + length, n))
  }

  /** The slice of the view becomes tombstones and leaves the text; nothing changes when it fails. */
  ghost predicate Deletes(chars: seq<Node>, text: string, v: seq<Node>, b: Bounds, chars': seq<Node>, text': string) {
    && IsView(chars, v) && |v| == |text|
    && if b.Between? then
         && b.from <= b.to <= |v|
         && MarkedUpTo(chars, v, b.from, b.to, chars') && text' == Cut(text, b.from, b.to)
       else chars' == chars && text' == text
  }

  /** `Panics` is the out-of-range index of a negative position. */
  datatype Outcome = Applied(op: nat) | OutOfBounds | Panics

  /** An operation is recorded when it was applied. */
  function Recorded(ops: map<nat, Operation>, r: Outcome, o: Operation): map<nat, Operation> {
    if r.Applied? then ops[r.op := o] else ops
  }

  class Document {
    var characters: seq<Node>
    var tombstones: set<nat>
    var operations: map<nat, Operation>
    var clock: nat
    var nextId: nat           // fresh identifiers of characters
    var nextOperation: nat    // fresh identifiers of operations
    ghost var view: seq<Node> // a result the sort may give
    ghost var text: string    // what plain editing of a string would give
    ghost var exact: bool     // every insertion so far had room

    ghost predicate Valid()
      reads this`characters, this`tombstones, this`nextId, this`view, this`text, this`exact
    {
      Sound(characters, tombstones, nextId, view) && |text| == |view| && (exact ==> Exact(view, text))
    }

    constructor ()
      ensures Valid() && exact && text == "" && characters == []
    {
      characters, tombstones, operations, clock, nextId, nextOperation := [], {}, map[], 0, 0, 0;
      view, text, exact := [], "", true;
    }

    method GetVisibleCharacters() returns (v: seq<Node>)
      ensures IsView(characters, v)
    {
      var visible := [];
      for i := 0 to |characters|
        invariant visible == Visible(characters[..i])
      {
        VisibleSnoc(characters[..i], characters[i]);
        assert characters[..i + 1] == characters[..i] + [characters[i]];
        if !characters[i].deleted {
          visible := visible + [characters[i]];
        }
      }
      assert characters[..|characters|] == characters;
      v := SortByPosition(visible);
    }

    /** After insertions that all had room, the content is what plain editing gives. */
    method GetContent() returns (content: string)
      requires Valid()
      ensures exact ==> content == text
      ensures |content| == |text|
    {
      var v := GetVisibleCharacters();
      ViewsAgreeOnPositions(characters, v, view);
      if exact {
        StrictViewUnique(characters, view, v);
      }
      content := Text(v);
    }

    method CalculatePosition(index: int) returns (p: real)
      requires Valid()
      ensures p == Start(view, index)
    {
      var visible := GetVisibleCharacters();
      ViewsAgreeOnPositions(characters, visible, view);
      if index <= 0 {
        return 0.0;
      }
      if index >= |visible| {
        if |visible| == 0 {
          return 1.0;
        }
        return visible[|visible| - 1].position + 1.0;
      }
      return (visible[index - 1].position + visible[index].position) / 2.0;
    }

    /** The loop of applyInsert: characters spaced by their byte offsets. */
    method AppendNodes(startPos: real, content: string)
      modifies this`characters, this`nextId
      ensures characters == old(characters) + NewNodes(startPos, content, old(nextId))
      ensures nextId == old(nextId) + |content|
    {
      var offset := 0;
      ghost var added := NewNodes(startPos, content, nextId);
      for i := 0 to |content|
        invariant offset == Offset(content, i) && nextId == old(nextId) + i
        invariant characters == old(characters) + added[..i]
      {
        var node := Node(nextId, content[i], startPos + offset as real * Increment, false);
        assert added[i] == node && added[..i + 1] == added[..i] + [node];
        characters, nextId := characters + [node], nextId + 1;
        offset := offset + Width(content[i]);
      }
      assert added[..|content|] == added;
    }

    /** Exactness, and with it the promise of GetContent, goes on if and only if there is room. */
    method ApplyInsert(position: int, content: string)
      requires Valid()
      modifies this`characters, this`nextId, this`view, this`text, this`exact
      ensures Valid()
      ensures characters == old(characters) + NewNodes(Start(old(view), position), content, old(nextId))
      ensures text == Splice(old(text), Clamp(position, |old(text)|), content)
      ensures exact <==> old(exact) && Room(old(view), position, content)
    {
      var startPos := CalculatePosition(position);
      ghost var view' := InsertKeepsSound(characters, tombstones, nextId, view, text, position, content);
      AppendNodes(startPos, content);
      text, exact := Splice(text, Clamp(position, |text|), content), exact && Room(view, position, content);
      view := view';
    }

    /** Always succeeds, and records the operation; from strict positions the visible characters are spliced if and only if there is room. */
    method Insert(position: int, content: string) returns (op: nat)
      requires Valid()
      modifies this
      ensures Valid()
      ensures Strict(old(view)) ==>
                (Splices(old(characters), old(view), position, content, old(nextId)) <==> Room(old(view), position, content))
      ensures characters == old(characters) + NewNodes(Start(old(view), position), content, old(nextId))
      ensures text == Splice(old(text), Clamp(position, |old(text)|), content)
      ensures exact <==> old(exact) && Room(old(view), position, content)
      ensures operations == old(operations)[op := Inserted(position, content)] && op == old(nextOperation)
      ensures clock == old(clock) + 1 && tombstones == old(tombstones)
    {
      if Strict(view) {
        InsertSplicesIff(characters, view, position, content, nextId);
      }
      clock := clock + 1;
      op, nextOperation := nextOperation, nextOperation + 1;
      ApplyInsert(position, content);
      operations := operations[op := Inserted(position, content)];
    }

    /** The inner loop of applyDelete. */
    method MarkDeleted(id: nat)
      modifies this`characters, this`tombstones
      ensures Marks(characters, tombstones) == MarkFirst(Marks(old(characters), old(tombstones)), id)
    {
      for j := 0 to |characters|
        invariant characters == old(characters) && tombstones == old(tombstones)
        invariant forall k :: 0 <= k < j ==> characters[k].id != id
      {
        if characters[j].id == id {
          assert IndexOf(characters, id) == j;
          characters := characters[j := characters[j].(deleted := true)];
          tombstones := tombstones + {id};
          return;
        }
      }
    }

    /** The outer loop of applyDelete. */
    method MarkSlice(v: seq<Node>, from: nat, to: nat)
      requires from <= to <= |v|
      modifies this`characters, this`tombstones
      ensures Marks(characters, tombstones) == MarkEach(Marks(old(characters), old(tombstones)), v, from, to)
    {
      ghost var m := Marks(characters, tombstones);
      for i := from to to
        invariant Marks(characters, tombstones) == MarkEach(m, v, from, i)
      {
        MarkDeleted(v[i].id);
      }
    }

    /** The marking part of applyDelete, which cuts the slice out of the view and out of the text. */
    method Remove(v: seq<Node>, from: nat, to: nat)
      requires Valid() && IsView(characters, v) && from <= to <= |v| == |text|
      modifies this`characters, this`tombstones, this`view, this`text
      ensures Valid()
      ensures MarkedUpTo(old(characters), v, from, to, characters)
      ensures text == Cut(old(text), from, to)
    {
      ghost var chars, tombs := characters, tombstones;
      MarkSlice(v, from, to);
      view := MarkEachDeletes(chars, tombs, nextId, view, text, v, from, to, Marks(characters, tombstones));
      text := Cut(text, from, to);
    }

    method ApplyDelete(position: int, length: int) returns (r: Bounds, ghost v: seq<Node>)
      requires Valid()
      modifies this`characters, this`tombstones, this`view, this`text
      ensures Valid() && r == DeleteBounds(position, length, |v|)
      ensures Deletes(old(characters), old(text), v, DeleteBounds(position, length, |v|), characters, text)
    {
      var visible := GetVisibleCharacters();
      v := visible;
      ViewsAgreeOnPositions(characters, v, view);
      if position >= |visible| {
        return Beyond, v;
      }
      var endPos := position + length;
      if endPos > |visible| {
        endPos := |visible|;
      }
      if position < endPos {
        if position < 0 {
          return Before, v;
        }
        Remove(visible, position, endPos);
        return Between(position, endPos), v;
      }
      Remove(visible, Clamp(position, |visible|), Clamp(position, |visible|)); // the loop runs no round
      return Between(Clamp(position, |visible|), Clamp(position, |visible|)), v;
    }

    /**
     Fails beyond the end, panics on a slice that starts before the beginning, and
     otherwise cuts the clamped slice out of the view and out of the text.
     */
    method Delete(position: int, length: int) returns (r: Outcome, ghost v: seq<Node>)
      requires Valid()
      modifies this`characters, this`tombstones, this`view, this`text, this`operations, this`nextOperation, this`clock
      ensures clock == old(clock) + 1 && Valid()
      ensures Deletes(old(characters), old(text), v, DeleteBounds(position, length, |v|), characters, text)
      ensures r.OutOfBounds? <==> DeleteBounds(position, length, |v|).Beyond?
      ensures r.Panics? <==> DeleteBounds(position, length, |v|).Before?
      ensures operations == Recorded(old(operations), r, Removed(position, length))
    {
      clock := clock + 1;
      var op := nextOperation;
      nextOperation := nextOperation + 1;
      var bounds;
      bounds, v := ApplyDelete(position, length);
      r := if bounds.Between? then Applied(op) else if bounds.Beyond? then OutOfBounds else Panics;
      operations := Recorded(operations, r, Removed(position, length));
    }
  }
}
