/**
 * The device list of devicelist.c: a singly linked list of Bluetooth
 * addresses that ends in an empty sentinel cell. A cell holds an address
 * exactly when its `next` is not null; adding fills the sentinel and hangs
 * a fresh sentinel after it. An iterator walks the cells from the head.
 *
 * A list is described by its ghost spine, the cells from the head to the
 * sentinel in order, and by the addresses stored in every cell but the
 * last.
 */
module DeviceList {
  import opened BtTypes
  import BtUtil
  import BtDefs

  /** `bt_device_list_t`: one cell of a device list; the list is its head cell. */
  class Node {
    var next: Node?
    var address: Addr

    /** `bt_list_new`: a list that is only a sentinel. */
    constructor ()
      ensures next == null
    {
      next := null;
      address := [0, 0, 0, 0, 0, 0];
    }
  }

  /** `bt_iterator_t`: the list being walked and the cell the walk has reached. */
  class Iterator {
    var list: Node?
    var item: Node?

    constructor ()
      ensures list == null && item == null
    {
      list := null;
      item := null;
    }
  }

  /**
   * `spine` is a well-formed list holding `items`: each cell but the last
   * links to the next cell and stores the corresponding address, and the
   * last cell is the sentinel.
   */
  ghost predicate Valid(spine: seq<Node>, items: seq<Addr>)
    reads spine
  {
    |spine| == |items| + 1 &&
    (forall i :: 0 <= i < |items| ==> spine[i].next == spine[i + 1] && spine[i].address == items[i]) &&
    spine[|items|].next == null
  }

  /** Walking a list: a cell links to the next cell of the spine, and only the sentinel has no next. */
  lemma CellLinks(spine: seq<Node>, items: seq<Addr>, i: nat)
    requires Valid(spine, items) && i < |spine|
    ensures i < |items| <==> spine[i].next != null
    ensures i < |items| ==> spine[i].next == spine[i + 1] && spine[i].address == items[i]
  {
  }

  /** No address occurs twice. */
  predicate NoDuplicates(items: seq<Addr>)
  {
    forall i, j :: 0 <= i < j < |items| ==> items[i] != items[j]
  }

  /** The effect of `bt_list_add_device` on the stored addresses. */
  function AddItem(items: seq<Addr>, a: Addr): (r: seq<Addr>)
    ensures a in r
    ensures a in items ==> r == items
    ensures a !in items ==> |r| == |items| + 1 && r[..|items|] == items
  {
    if a in items then items else items + [a]
  }

  /** Adding keeps the list free of duplicates. */
  lemma AddKeepsNoDuplicates(items: seq<Addr>, a: Addr)
    requires NoDuplicates(items)
    ensures NoDuplicates(AddItem(items, a))
  {
    if a !in items {
      var r := items + [a];
      forall i, j | 0 <= i < j < |r|
        ensures r[i] != r[j]
      {
        if j == |items| {
          assert r[i] == items[i];
        }
      }
    }
  }

  /** Adding an address already present, or adding the same address twice, changes nothing more. */
  lemma AddIdempotent(items: seq<Addr>, a: Addr)
    ensures AddItem(AddItem(items, a), a) == AddItem(items, a)
  {
  }

  /** `bt_list_new`: a fresh list holding nothing. */
  method NewList() returns (list: Node, ghost spine: seq<Node>)
    ensures fresh(list) && spine == [list] && Valid(spine, [])
  {
    list := new Node();
    spine := [list];
  }

  /**
   * `bt_list_delete`: nothing for a NULL list; otherwise the tail is
   * deleted first, the cell is unlinked from it and then freed. Returns
   * the number of cells freed: every cell of the list, sentinel included.
   */
  method ListDelete(list: Node?, ghost spine: seq<Node>, ghost items: seq<Addr>) returns (freed: nat)
    requires list != null ==> Valid(spine, items) && spine[0] == list
    modifies spine
    ensures list == null ==> freed == 0
    ensures list != null ==> freed == |spine| && forall n :: n in spine ==> n.next == null
    decreases |spine|
  {
    if list == null {
      return 0;
    }
    freed := 0;
    CellLinks(spine, items, 0);
    if list.next != null {
      freed := ListDelete(list.next, spine[1..], items[1..]);
      list.next := null;
    }
    freed := freed + 1;
  }

  /**
   * `bt_list_add_device`: nothing happens for a NULL list or address, or
   * when the address is already stored; otherwise the walk reaches the
   * sentinel, stores the address there and appends a fresh sentinel.
   */
  method AddDevice(list: Node?, address: Option<Addr>, ghost spine: seq<Node>, ghost items: seq<Addr>)
    returns (ghost spine': seq<Node>)
    requires list != null ==> Valid(spine, items) && spine[0] == list
    modifies spine
    ensures list == null || address.None? ==> spine' == spine && unchanged(spine)
    ensures list != null && address.Some? ==> Valid(spine', AddItem(items, address.value)) && spine'[0] == list
    ensures list != null && address.Some? && address.value in items ==> spine' == spine && unchanged(spine)
    ensures list != null && address.Some? && address.value !in items ==>
      spine' == spine + [spine'[|spine|]] && fresh(spine'[|spine|])
  {
    spine' := spine;
    if list == null || address.None? {
      return;
    }
    var a := address.value;
    var cur := list;
    ghost var i := 0;
    while cur.next != null
      invariant 0 <= i < |spine| && cur == spine[i]
      invariant forall k :: 0 <= k < i ==> items[k] != a
      modifies {}
      decreases |spine| - i
    {
      CellLinks(spine, items, i);
      if BtUtil.AddrEquals(cur.address, a) {
        return;
      }
      cur := cur.next;
      i := i + 1;
    }
    CellLinks(spine, items, i);
    assert i == |items| && a !in items;
    forall k | 0 <= k < |items|
      ensures spine[k] != cur
    {
      CellLinks(spine, items, k);
    }
    var sentinel := new Node();
    cur.next := sentinel;
    cur.address := a;
    spine' := spine + [sentinel];
    assert AddItem(items, a) == items + [a];
    forall k | 0 <= k < |items|
      ensures spine'[k].next == spine'[k + 1] && spine'[k].address == (items + [a])[k]
    {
      assert spine'[k] == spine[k] && spine'[k + 1] == spine[k + 1];
    }
  }

  /** `bt_list_is_empty`: the head is the sentinel. */
  method IsEmpty(list: Node, ghost spine: seq<Node>, ghost items: seq<Addr>) returns (empty: bool)
    requires Valid(spine, items) && spine[0] == list
    ensures empty <==> items == []
  {
    CellLinks(spine, items, 0);
    empty := list.next == null;
  }

  /** `bt_iterate_list`: the iterator starts at the head of `list` (nothing for a NULL iterator). */
  method IterateList(it: Iterator?, list: Node?)
    modifies it
    ensures it != null ==> it.list == list && it.item == list
  {
    if it == null {
      return;
    }
    it.list := list;
    it.item := list;
  }

  /** `bt_iterate_rewind`: back to the head of the iterator's list. */
  method IterateRewind(it: Iterator?)
    modifies it
    ensures it != null ==> it.list == old(it.list) && it.item == it.list
  {
    if it == null {
      return;
    }
    it.item := it.list;
  }

  /**
   * `bt_get_next_device` on an iterator standing at cell `pos` of a list:
   * a NULL iterator, address or position is `ErrBadParam`; at the sentinel
   * `ErrEndOfEnum`, without moving; otherwise the address stored at `pos`
   * is written out and the iterator moves to the next cell.
   */
  method GetNextDevice(it: Iterator?, address: Ref?<Addr>, ghost spine: seq<Node>, ghost items: seq<Addr>, ghost pos: nat)
    returns (r: BtErr)
    requires it != null && it.item != null ==> Valid(spine, items) && pos < |spine| && it.item == spine[pos]
    modifies it, address
    ensures r == ErrBadParam <==> it == null || address == null || old(it.item) == null
    ensures r == ErrEndOfEnum <==> it != null && address != null && old(it.item) != null && pos == |items|
    ensures r == Success || r == ErrBadParam || r == ErrEndOfEnum
    ensures r != Success && it != null ==> unchanged(it)
    ensures r != Success && address != null ==> unchanged(address)
    ensures r == Success ==> it != null && address != null && pos < |items|
    ensures r == Success ==> address.value == items[pos] && it.item == spine[pos + 1] && it.list == old(it.list)
    ensures it != null && old(it.item) != null ==> Valid(spine, items)
  {
    if it == null || address == null {
      return ErrBadParam;
    }
    if it.item == null {
      return ErrBadParam;
    }
    CellLinks(spine, items, pos);
    if it.item.next == null {
      return ErrEndOfEnum;
    }
    address.value := it.item.address;
    it.item := it.item.next;
    return Success;
  }

  /**
   * `bt_get_list_size`: walks a fresh iterator from the head, counting the
   * successful `bt_get_next_device` calls: the number of stored addresses
   * (0 for a NULL list, where the first call reports a bad parameter).
   */
  method GetListSize(list: Node?, ghost spine: seq<Node>, ghost items: seq<Addr>) returns (size: nat)
    requires list != null ==> Valid(spine, items) && spine[0] == list
    ensures list == null ==> size == 0
    ensures list != null ==> size == |items|
  {
    var it := new Iterator();
    var address := new Ref<Addr>([0, 0, 0, 0, 0, 0]);
    IterateList(it, list);
    size := 0;
    var e := GetNextDevice(it, address, spine, items, 0);
    while e == Success
      invariant list != null ==> size <= |items| && Valid(spine, items)
      invariant list == null ==> e == ErrBadParam && size == 0
      invariant e == Success ==> list != null && size < |items| && it.item == spine[size + 1]
      invariant e != Success && list != null ==> e == ErrEndOfEnum && size == |items|
      modifies it, address
      decreases |items| - size, if e == Success then 1 else 0
    {
      size := size + 1;
      e := GetNextDevice(it, address, spine, items, size);
    }
  }

  // ---------------------------------------------------------------------
  // The line format of the saved list
  // ---------------------------------------------------------------------

  /** One line of a saved list: the colon form of the address and a new-line. */
  function SaveLine(a: Addr): (line: string)
    ensures |line| == BtDefs.ADDRESS_LENGTH && line[BtDefs.ADDRESS_LENGTH - 1] == '\n'
  {
    BtUtil.AddrToStr(a) + "\n"
  }

  /** The lines `bt_list_save` writes: one per stored address, in list order. */
  function SaveLines(items: seq<Addr>): (lines: seq<string>)
    ensures |lines| == |items|
    ensures forall k :: 0 <= k < |items| ==> lines[k] == SaveLine(items[k])
  {
    if items == [] then [] else [SaveLine(items[0])] + SaveLines(items[1..])
  }

  /**
   * The line filter of `bt_list_load`: a line is used only when its
   * character 17 is the new-line, and then only if the 17 characters
   * before it are an address in colon form.
   */
  function LoadLine(line: string): (r: Option<Addr>)
    ensures r.Some? ==> |line| >= BtDefs.ADDRESS_LENGTH && line[BtDefs.ADDRESS_LENGTH - 1] == '\n'
    ensures r.Some? ==> BtUtil.StrToAddr(line[..BtDefs.ADDRESS_LENGTH - 1]) == Ok(r.value)
  {
    if |line| < BtDefs.ADDRESS_LENGTH || line[BtDefs.ADDRESS_LENGTH - 1] != '\n' then None
    else
      match BtUtil.StrToAddr(line[..BtDefs.ADDRESS_LENGTH - 1])
      case Ok(a) => Some(a)
      case Err(_) => None
  }

  /** The stored addresses after `bt_list_load` reads `lines` into a list holding `items`. */
  function LoadLines(lines: seq<string>, items: seq<Addr>): seq<Addr>
    decreases |lines|
  {
    if lines == [] then items
    else
      LoadLines(lines[1..], LoadInto(items, lines[0]))
  }

  /** The stored addresses after one line of a file is read into a list holding `items`. */
  function LoadInto(items: seq<Addr>, line: string): (r: seq<Addr>)
    ensures LoadLine(line).Some? ==> r == AddItem(items, LoadLine(line).value)
    ensures LoadLine(line).None? ==> r == items
  {
    match LoadLine(line)
    case Some(a) => AddItem(items, a)
    case None => items
  }

  /** A saved line loads back as the address it was saved from. */
  lemma LoadSavedLine(a: Addr)
    ensures LoadLine(SaveLine(a)) == Some(a)
  {
    var s := BtUtil.AddrToStr(a);
    assert SaveLine(a)[..BtDefs.ADDRESS_LENGTH - 1] == s + "";
    BtUtil.AddrStrRoundTrip(a, "");
  }

  /**
   * Saving a duplicate-free list and loading the lines into a list holding
   * `prefix` appends the saved addresses in order, when none of them is
   * in `prefix` already.
   */
  lemma {:induction false} LoadSavedLines(items: seq<Addr>, prefix: seq<Addr>)
    requires NoDuplicates(prefix + items)
    ensures LoadLines(SaveLines(items), prefix) == prefix + items
    decreases |items|
  {
    if items == [] {
      assert prefix + [] == prefix;
    } else {
      var a := items[0];
      var lines := SaveLines(items);
      assert lines[1..] == SaveLines(items[1..]);
      assert a !in prefix by {
        forall i | 0 <= i < |prefix|
          ensures prefix[i] != a
        {
          assert (prefix + items)[i] == prefix[i];
          assert (prefix + items)[|prefix|] == a;
        }
      }
      LoadSavedLine(a);
      assert LoadInto(prefix, lines[0]) == prefix + [a];
      assert LoadLines(lines, prefix) == LoadLines(lines[1..], prefix + [a]);
      ShiftHead(prefix, items);
      LoadSavedLines(items[1..], prefix + [a]);
    }
  }

  /** Moving the head of `s` to the end of `p` keeps the concatenation. */
  lemma ShiftHead(p: seq<Addr>, s: seq<Addr>)
    requires s != []
    ensures p + s == (p + [s[0]]) + s[1..]
  {
    assert s == [s[0]] + s[1..];
  }

  /** Save then load into an empty list gives back the same addresses in the same order. */
  lemma SaveLoadRoundTrip(items: seq<Addr>)
    requires NoDuplicates(items)
    ensures LoadLines(SaveLines(items), []) == items
  {
    assert [] + items == items;
    LoadSavedLines(items, []);
  }

  /**
   * What a file name leads to: a NULL name, a file `fopen` cannot open, or
   * a file that opens, holding the given lines (`w+` empties it before
   * writing).
   */
  datatype File = NullName | CannotOpen | Opens(lines: seq<string>)

  /**
   * `bt_list_save`: a NULL name or list is `ErrBadParam`, a file that
   * cannot be opened `ErrFileNotFound`; otherwise an iterator walks the
   * list and the file's new lines are one per stored address.
   */
  method ListSave(list: Node?, file: File, ghost spine: seq<Node>, ghost items: seq<Addr>)
    returns (r: BtErr, lines: seq<string>)
    requires list != null ==> Valid(spine, items) && spine[0] == list
    ensures file.NullName? || list == null ==> r == ErrBadParam && lines == []
    ensures file.CannotOpen? && list != null ==> r == ErrFileNotFound && lines == []
    ensures file.Opens? && list != null ==> r == Success && lines == SaveLines(items)
  {
    lines := [];
    if file.NullName? || list == null {
      return ErrBadParam, [];
    }
    if file.CannotOpen? {
      return ErrFileNotFound, [];
    }
    var it := new Iterator();
    var address := new Ref<Addr>([0, 0, 0, 0, 0, 0]);
    IterateList(it, list);
    var k := 0;
    var e := GetNextDevice(it, address, spine, items, 0);
    while e == Success
      invariant k <= |items| && Valid(spine, items)
      invariant e == Success ==> k < |items| && it.item == spine[k + 1] && address.value == items[k]
      invariant e != Success ==> k == |items|
      invariant lines == SaveLines(items[..k])
      modifies it, address
      decreases |items| - k, if e == Success then 1 else 0
    {
      SaveLinesStep(items, k);
      lines := lines + [SaveLine(address.value)];
      k := k + 1;
      e := GetNextDevice(it, address, spine, items, k);
    }
    assert items[..k] == items;
    return Success, lines;
  }

  lemma SaveLinesStep(items: seq<Addr>, k: nat)
    requires k < |items|
    ensures SaveLines(items[..k + 1]) == SaveLines(items[..k]) + [SaveLine(items[k])]
  {
    assert items[..k + 1] == items[..k] + [items[k]];
    SaveLinesSnoc(items[..k], items[k]);
  }

  lemma SaveLinesSnoc(items: seq<Addr>, a: Addr)
    ensures SaveLines(items + [a]) == SaveLines(items) + [SaveLine(a)]
  {
  }

  /**
   * `bt_list_load`: a NULL name or list is `ErrBadParam`; a file that
   * cannot be opened empties the list (its head becomes the sentinel) and
   * is `ErrFileNotFound`; otherwise each accepted line is added as
   * `bt_list_add_device` adds, after what the list already holds.
   */
  method ListLoad(list: Node?, file: File, ghost spine: seq<Node>, ghost items: seq<Addr>)
    returns (r: BtErr, ghost spine': seq<Node>)
    requires list != null ==> Valid(spine, items) && spine[0] == list
    modifies spine
    ensures file.NullName? || list == null ==> r == ErrBadParam && spine' == spine && unchanged(spine)
    ensures file.CannotOpen? && list != null ==> r == ErrFileNotFound && Valid(spine', []) && spine'[0] == list
    ensures file.Opens? && list != null ==>
      r == Success && Valid(spine', LoadLines(file.lines, items)) && spine'[0] == list
  {
    spine' := spine;
    if file.NullName? || list == null {
      return ErrBadParam, spine;
    }
    if file.CannotOpen? {
      list.next := null;
      spine' := [list];
      return ErrFileNotFound, spine';
    }
    var lines := file.lines;
    ghost var held := items;
    var k := 0;
    while k < |lines|
      invariant 0 <= k <= |lines|
      invariant Valid(spine', held) && spine'[0] == list
      invariant forall j :: 0 <= j < |spine'| ==> spine'[j] in spine || fresh(spine'[j])
      invariant LoadLines(lines, items) == LoadLines(lines[k..], held)
    {
      var parsed := LoadLine(lines[k]);
      assert LoadLines(lines[k..], held) == LoadLines(lines[k + 1..], LoadInto(held, lines[k])) by {
        assert lines[k..][1..] == lines[k + 1..];
      }
      if parsed.Some? {
        spine' := AddDevice(list, parsed, spine', held);
      }
      held := LoadInto(held, lines[k]);
      k := k + 1;
    }
    return Success, spine';
  }
}
