/** The concrete scenarios of the unit tests in src/lib.rs, stated over the model. */
module Scenarios {
  import opened Options
  import opened Handles
  import opened GenArrays
  import opened Iteration

  // The arenas the `works` test passes through, written out slot by slot.
  function HelloSlot(): Slot<string> { Slot(0, Some("hello")) }

  function AfterPushes(): GenArray<string> {
    GenArray([HelloSlot(), Slot(0, Some("world")), Slot(0, Some("lorem")), Slot(0, Some("ipsum"))], [])
  }

  function AfterRemoves(): GenArray<string> {
    GenArray([HelloSlot(), Slot(0, None), Slot(0, None), Slot(0, Some("ipsum"))], [1, 2])
  }

  function AfterReuse(): GenArray<string> {
    GenArray([HelloSlot(), Slot(1, Some("dolor")), Slot(1, Some("sit")), Slot(0, Some("ipsum")), Slot(0, Some("amet"))], [])
  }

  lemma WorksPushes()
    ensures
      var (a1, a) := Push(New<string>(), "hello");
      var (a2, b) := Push(a1, "world");
      var (a3, c) := Push(a2, "lorem");
      var (a4, d) := Push(a3, "ipsum");
      a == Index(0, 0) && b == Index(1, 0) && c == Index(2, 0) && d == Index(3, 0) && a4 == AfterPushes()
  {
  }

  lemma WorksRemoves()
    ensures Remove(Remove(AfterPushes(), Index(1, 0)), Index(2, 0)) == AfterRemoves()
  {
  }

  lemma WorksReuse()
    ensures
      var (a6, e) := Push(AfterRemoves(), "dolor");
      var (a7, f) := Push(a6, "sit");
      var (a8, g) := Push(a7, "amet");
      e == Index(1, 1) && f == Index(2, 1) && g == Index(4, 0) && a8 == AfterReuse()
  {
  }

  lemma WorksFinal()
    ensures Remove(AfterReuse(), Index(2, 0)) == AfterReuse()
    ensures
      var z := SetAt(AfterReuse(), Index(2, 1), "quanti");
      && Get(z, Index(0, 0)) == Some("hello") && Get(z, Index(1, 0)) == None
      && Get(z, Index(2, 0)) == None && Get(z, Index(3, 0)) == Some("ipsum")
      && Get(z, Index(1, 1)) == Some("dolor") && Get(z, Index(2, 1)) == Some("quanti")
      && Get(z, Index(4, 0)) == Some("amet")
      && Values(z.slots) == ["hello", "dolor", "quanti", "ipsum", "amet"]
  {
  }

  /** Test `iter`: after removing the second and third of four values, iteration yields the first and the last. */
  method IterTest() returns (out: seq<string>)
    ensures out == ["hello", "ipsum"]
  {
    WorksPushes();
    var (a1, _) := Push(New<string>(), "hello");
    var (a2, b) := Push(a1, "world");
    var (a3, c) := Push(a2, "lorem");
    var (a4, _) := Push(a3, "ipsum");
    var a5 := Remove(Remove(a4, b), c);
    WorksRemoves();
    out := Collect(a5);
    assert AfterRemoves().slots[1..][1..][1..] == [Slot(0, Some("ipsum"))];
  }

  /** Test `iter_mut`: doubling every value through the exclusive iterator, then iterating. */
  method IterMutTest() returns (out: seq<int>)
    ensures out == [4, 16]
  {
    var (a1, _) := Push(New<int>(), 2);
    var (a2, b) := Push(a1, 3);
    var (a3, c) := Push(a2, 5);
    var (a4, _) := Push(a3, 8);
    assert a4.slots == [Slot(0, Some(2)), Slot(0, Some(3)), Slot(0, Some(5)), Slot(0, Some(8))];
    var a5 := Remove(Remove(a4, b), c);
    assert a5.slots == [Slot(0, Some(2)), Slot(0, None), Slot(0, None), Slot(0, Some(8))];
    var a6 := ForEachMut(a5, x => x * 2);
    out := Collect(a6);
    assert a6.slots == [Slot(0, Some(4)), Slot(0, None), Slot(0, None), Slot(0, Some(16))];
    var s := a6.slots;
    assert s[1..] == [Slot(0, None), Slot(0, None), Slot(0, Some(16))];
    assert s[1..][1..] == [Slot(0, None), Slot(0, Some(16))];
    assert s[1..][1..][1..] == [Slot(0, Some(16))];
    assert Values(s[1..][1..][1..]) == [16];
    assert Values(s[1..][1..]) == [16];
    assert Values(s[1..]) == [16];
  }
}
