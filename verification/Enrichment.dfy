/** Suggested and pinned enrichment values, and the requests that move or drop them. */
module Enrichment {
  import opened Wrappers

  type Fields = map<string, string>

  type Book = map<string, Fields>

  datatype Mode = Accept | Discard | Unpin

  datatype Item = Item(productId: string, fields: set<string>)

  function At(book: Book, productId: string, field: string): Option<string> {
    if productId in book && field in book[productId] then Some(book[productId][field]) else None
  }

  function FieldsOf(book: Book, productId: string): Fields {
    if productId in book then book[productId] else map[]
  }

  /** Some item of the request names this field of this product. Items without an id count for nothing. */
  ghost predicate Requested(items: seq<Item>, productId: string, field: string) {
    productId != "" && exists i :: 0 <= i < |items| && items[i].productId == productId && field in items[i].fields
  }

  /** What a request does to one field of one product. */
  ghost predicate FieldMoved(
    mode: Mode, requested: bool, s: Option<string>, p: Option<string>, s': Option<string>, p': Option<string>)
  {
    match mode
    case Accept => if requested then s' == None && p' == (if s.Some? then s else p) else s' == s && p' == p
    case Discard => s' == (if requested then None else s) && p' == p
    case Unpin => s' == s && p' == (if requested then None else p)
  }

  ghost predicate Moved(mode: Mode, items: seq<Item>, s: Book, p: Book, s': Book, p': Book) {
    forall id, f :: FieldMoved(mode, Requested(items, id, f), At(s, id, f), At(p, id, f), At(s', id, f), At(p', id, f))
  }

  ghost predicate NoneEmpty(book: Book) {
    forall id :: id in book ==> book[id] != map[]
  }

  /** Drops the named fields. */
  method Drop(fields: Fields, names: set<string>) returns (rest: Fields)
    ensures rest == fields - names
  {
    rest := fields;
    var left := names;
    while left != {}
      invariant left <= names && rest == fields - (names - left)
      decreases |left|
    {
      var f :| f in left;
      left := left - {f};
      rest := rest - {f};
    }
  }

  /** The pins with the named suggestions moved over; a pin of the same name is replaced. */
  function Pinned(sug: Fields, pin: Fields, names: set<string>): Fields {
    pin + (map f | f in sug && f in names :: sug[f])
  }

  lemma PinnedOneMore(sug: Fields, pin: Fields, done: set<string>, f: string)
    ensures Pinned(sug, pin, done + {f}) ==
      if f in sug then Pinned(sug, pin, done)[f := sug[f]] else Pinned(sug, pin, done)
    ensures f !in sug ==> sug - (done + {f}) == sug - done
    ensures sug - (done + {f}) == sug - done - {f}
  {
  }

  lemma NothingPinned(sug: Fields, pin: Fields)
    ensures Pinned(sug, pin, {}) == pin && sug - {} == sug
  {
  }

  method MoveOver(sug: Fields, pin: Fields, names: set<string>) returns (sug': Fields, pin': Fields)
    ensures sug' == sug - names
    ensures pin' == Pinned(sug, pin, names)
  {
    hide Pinned;
    NothingPinned(sug, pin);
    sug', pin' := sug, pin;
    var left, done := names, {};
    while left != {}
      invariant left + done == names && left !! done
      invariant sug' == sug - done && pin' == Pinned(sug, pin, done)
      decreases |left|
    {
      var f :| f in left;
      PinnedOneMore(sug, pin, done, f);
      left, done := left - {f}, done + {f};
      if f in sug' {
        pin' := pin'[f := sug'[f]];
        sug' := sug' - {f};
      }
    }
  }

  /** Stores the fields of a product, or removes its entry once nothing is left. */
  function Stored(book: Book, productId: string, fields: Fields): Book {
    if fields != map[] then book[productId := fields] else book - {productId}
  }

  lemma NamedByOne(item: Item)
    ensures forall id, f ::
      Requested([item], id, f) <==> item.productId != "" && id == item.productId && f in item.fields
  {
    assert [item][0] == item;
  }

  lemma AcceptMoves(item: Item, s: Book, p: Book)
    requires item.productId != ""
    ensures
      var id := item.productId;
      var pin := Pinned(FieldsOf(s, id), FieldsOf(p, id), item.fields);
      Moved(
        Accept, [item], s, p,
        Stored(s, id, FieldsOf(s, id) - item.fields), if pin != map[] then p[id := pin] else p)
  {
    NamedByOne(item);
  }

  lemma DropMoves(item: Item, book: Book)
    requires item.productId != ""
    ensures
      var id := item.productId;
      forall i, f :: At(Stored(book, id, FieldsOf(book, id) - item.fields), i, f) ==
        if i == id && f in item.fields then None else At(book, i, f)
  {
    var id := item.productId;
    var rest := FieldsOf(book, id) - item.fields;
    forall i, f
      ensures At(Stored(book, id, rest), i, f) == if i == id && f in item.fields then None else At(book, i, f)
    {
      if i == id && f in FieldsOf(book, id) && f !in item.fields { assert f in rest; }
    }
  }

  class EnrichmentData {
    var suggestions: Book
    var pinned: Book

    constructor (suggestions: Book, pinned: Book)
      ensures this.suggestions == suggestions && this.pinned == pinned
    {
      this.suggestions, this.pinned := suggestions, pinned;
    }

    method ApplyItem(item: Item, mode: Mode)
      modifies this
      ensures Moved(mode, [item], old(suggestions), old(pinned), suggestions, pinned)
      ensures NoneEmpty(old(suggestions)) && NoneEmpty(old(pinned)) ==> NoneEmpty(suggestions) && NoneEmpty(pinned)
    {
      var id := item.productId;
      NamedByOne(item);
      if id == "" || item.fields == {} { return; }
      match mode {
        case Accept =>
          var sug, pin := MoveOver(FieldsOf(suggestions, id), FieldsOf(pinned, id), item.fields);
          AcceptMoves(item, suggestions, pinned);
          pinned := if pin != map[] then pinned[id := pin] else pinned;
          suggestions := Stored(suggestions, id, sug);
        case Discard =>
          var sug := Drop(FieldsOf(suggestions, id), item.fields);
          DropMoves(item, suggestions);
          suggestions := Stored(suggestions, id, sug);
        case Unpin =>
          var pin := Drop(FieldsOf(pinned, id), item.fields);
          DropMoves(item, pinned);
          pinned := Stored(pinned, id, pin);
      }
    }

    /** A request acts on each named field as if it were the only one, whatever the order of its
        items and however often they repeat. */
    method ApplyItems(items: seq<Item>, mode: Mode)
      modifies this
      ensures Moved(mode, items, old(suggestions), old(pinned), suggestions, pinned)
      ensures NoneEmpty(old(suggestions)) && NoneEmpty(old(pinned)) ==> NoneEmpty(suggestions) && NoneEmpty(pinned)
    {
      for i := 0 to |items|
        invariant Moved(mode, items[..i], old(suggestions), old(pinned), suggestions, pinned)
        invariant NoneEmpty(old(suggestions)) && NoneEmpty(old(pinned)) ==> NoneEmpty(suggestions) && NoneEmpty(pinned)
      {
        ghost var s, p := suggestions, pinned;
        ApplyItem(items[i], mode);
        MovedOneMore(mode, items[..i], items[i], old(suggestions), old(pinned), s, p, suggestions, pinned);
        assert items[..i + 1] == items[..i] + [items[i]];
      }
      assert items[..|items|] == items;
    }
  }

  lemma RequestedOneMore(items: seq<Item>, item: Item, id: string, f: string)
    ensures Requested(items + [item], id, f) <==> Requested(items, id, f) || Requested([item], id, f)
  {
    var longer := items + [item];
    if Requested(items, id, f) {
      var i :| 0 <= i < |items| && items[i].productId == id && f in items[i].fields;
      assert longer[i] == items[i];
    }
    if Requested([item], id, f) { assert longer[|items|] == item; }
  }

  lemma MovedOneMore(
    mode: Mode, items: seq<Item>, item: Item, s0: Book, p0: Book, s1: Book, p1: Book, s2: Book, p2: Book)
    requires Moved(mode, items, s0, p0, s1, p1) && Moved(mode, [item], s1, p1, s2, p2)
    ensures Moved(mode, items + [item], s0, p0, s2, p2)
  {
    forall id, f
      ensures FieldMoved(
        mode, Requested(items + [item], id, f), At(s0, id, f), At(p0, id, f), At(s2, id, f), At(p2, id, f))
    {
      RequestedOneMore(items, item, id, f);
      assert FieldMoved(mode, Requested(items, id, f), At(s0, id, f), At(p0, id, f), At(s1, id, f), At(p1, id, f));
    }
  }

  /** Accepting moves values: a suggestion that is accepted is pinned with its value, whatever was
      pinned there, and is no longer suggested; everything else stays. A value that was pinned is
      lost exactly when another one is accepted over it. */
  lemma AcceptOverwritesIff(items: seq<Item>, s: Book, p: Book, s': Book, p': Book, id: string, f: string)
    requires Moved(Accept, items, s, p, s', p')
    ensures At(p', id, f) == if Requested(items, id, f) && At(s, id, f).Some? then At(s, id, f) else At(p, id, f)
    ensures At(s', id, f) == if Requested(items, id, f) then None else At(s, id, f)
    ensures At(p, id, f).Some? && At(p', id, f) != At(p, id, f) <==>
      Requested(items, id, f) && At(s, id, f).Some? && At(p, id, f).Some? && At(s, id, f) != At(p, id, f)
  {
    assert FieldMoved(Accept, Requested(items, id, f), At(s, id, f), At(p, id, f), At(s', id, f), At(p', id, f));
  }
}
