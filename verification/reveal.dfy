/**
  The scroll-reveal of the work items. The page's visibility observer hands
  the callback a batch of entries, each naming an observed item and whether
  it currently intersects the viewport; the callback gives every intersecting
  item full opacity and no vertical offset, and does nothing for the others.
  Nothing ever hides an item again. Whether an entry intersects (the 10%
  threshold and the 50px bottom margin) is decided by the browser and is an
  input here.
*/
module Reveal {

  /** The inline style properties the callback writes. */
  datatype Style = Style(opacity: string, transform: string)

  const Revealed := Style("1", "translateY(0)")

  /** An observed work item, by its position among the page's work items. */
  type Item = nat

  datatype Entry = Entry(target: Item, isIntersecting: bool)

  /** Some entry of the batch reports `t` as intersecting. */
  predicate Hits(entries: seq<Entry>, t: Item) {
    exists i | 0 <= i < |entries| :: entries[i].target == t && entries[i].isIntersecting
  }

  /** The observer callback over one batch; `styles` holds the inline styles
      set so far, keyed by item. */
  function ApplyBatch(styles: map<Item, Style>, entries: seq<Entry>): (r: map<Item, Style>)
    ensures forall t :: t in r <==> t in styles || Hits(entries, t)
    ensures forall t | Hits(entries, t) :: r[t] == Revealed
    ensures forall t | t in styles && !Hits(entries, t) :: r[t] == styles[t]
    decreases |entries|
  {
    if entries == [] then styles
    else
      var e := entries[0];
      var next := if e.isIntersecting then styles[e.target := Revealed] else styles;
      var r := ApplyBatch(next, entries[1..]);
      assert forall t :: Hits(entries, t) <==>
        (e.target == t && e.isIntersecting) || Hits(entries[1..], t) by {
        forall t
          ensures Hits(entries, t) <==>
            (e.target == t && e.isIntersecting) || Hits(entries[1..], t)
        {
          if Hits(entries[1..], t) {
            var i :| 0 <= i < |entries[1..]| && entries[1..][i].target == t && entries[1..][i].isIntersecting;
            assert entries[i + 1] == entries[1..][i];
          }
          if Hits(entries, t) {
            var i :| 0 <= i < |entries| && entries[i].target == t && entries[i].isIntersecting;
            if i > 0 {
              assert entries[1..][i - 1] == entries[i];
            }
          }
        }
      }
      r
  }

  /** The items currently shown. */
  function RevealedItems(styles: map<Item, Style>): set<Item> {
    set t | t in styles && styles[t] == Revealed
  }

  /** One batch reveals exactly the items it reports as intersecting, on top
      of those already revealed. */
  lemma BatchRevealsExactly(styles: map<Item, Style>, entries: seq<Entry>)
    ensures forall t :: t in RevealedItems(ApplyBatch(styles, entries)) <==>
              t in RevealedItems(styles) || Hits(entries, t)
  {
  }

  /** The callback over a sequence of batches, in delivery order. */
  function ApplyBatches(styles: map<Item, Style>, batches: seq<seq<Entry>>): map<Item, Style>
    decreases |batches|
  {
    if batches == [] then styles
    else ApplyBatches(ApplyBatch(styles, batches[0]), batches[1..])
  }

  /** Reveal is one-way: the set of revealed items only grows, so an item
      that leaves the viewport stays revealed. */
  lemma {:induction false} RevealedOnlyGrows(styles: map<Item, Style>, batches: seq<seq<Entry>>)
    ensures RevealedItems(styles) <= RevealedItems(ApplyBatches(styles, batches))
    decreases |batches|
  {
    if batches != [] {
      var next := ApplyBatch(styles, batches[0]);
      assert RevealedItems(styles) <= RevealedItems(next);
      RevealedOnlyGrows(next, batches[1..]);
    }
  }

  /** An item reported as intersecting in any batch is revealed after all of
      them. */
  lemma {:induction false} HitIsRevealed(styles: map<Item, Style>, batches: seq<seq<Entry>>, k: nat, t: Item)
    requires k < |batches| && Hits(batches[k], t)
    ensures t in RevealedItems(ApplyBatches(styles, batches))
    decreases |batches|
  {
    var next := ApplyBatch(styles, batches[0]);
    if k == 0 {
      assert t in RevealedItems(next);
      RevealedOnlyGrows(next, batches[1..]);
    } else {
      HitIsRevealed(next, batches[1..], k - 1, t);
    }
  }
}
