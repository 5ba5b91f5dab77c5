/** The custom-UI builders an extension uses to describe a screen for the host: each
    builder returns one node of the tree, tagged with its `type`; `Column` and `Row` drop
    the children that are `undefined`, and `If` switches a node or a list of nodes off.
    The entry type shown by `EntryCard` comes from the host's runtime types and is a
    type parameter here. */
module Ui {
  import opened Wrappers

  datatype Display = Relative | Absolute

  /** A node of the custom-UI tree. `header` and `caption` (the `label` field) are
      optional, as in the object literals the builders return. */
  datatype CustomUI<E> =
    | TextNode(text: string)
    | TimeStampNode(timestamp: string, display: Display)
    | ImageNode(image: string, header: Option<map<string, string>>)
    | LinkNode(link: string, caption: Option<string>)
    | ColumnNode(children: seq<CustomUI<E>>)
    | RowNode(children: seq<CustomUI<E>>)
    | EntryCardNode(entry: E)

  /** The node's `type` field. */
  function TypeName<E>(u: CustomUI<E>): string {
    match u
    case TextNode(_) => "Text"
    case TimeStampNode(_, _) => "TimeStamp"
    case ImageNode(_, _) => "Image"
    case LinkNode(_, _) => "Link"
    case ColumnNode(_) => "Column"
    case RowNode(_) => "Row"
    case EntryCardNode(_) => "EntryCard"
  }

  /** The `type` tag tells the kinds of node apart: two nodes carry the same tag exactly
      when they are built by the same builder. */
  lemma TypeNameIdentifiesKind<E>(u: CustomUI<E>, v: CustomUI<E>)
    ensures TypeName(u) == TypeName(v) <==>
      (u.TextNode? && v.TextNode?) || (u.TimeStampNode? && v.TimeStampNode?) ||
      (u.ImageNode? && v.ImageNode?) || (u.LinkNode? && v.LinkNode?) ||
      (u.ColumnNode? && v.ColumnNode?) || (u.RowNode? && v.RowNode?) ||
      (u.EntryCardNode? && v.EntryCardNode?)
  {
    match u
    case TextNode(_) => assert TypeName(u)[0] == 'T' && TypeName(u)[1] == 'e';
    case TimeStampNode(_, _) => assert TypeName(u)[0] == 'T' && TypeName(u)[1] == 'i';
    case ImageNode(_, _) => assert TypeName(u)[0] == 'I';
    case LinkNode(_, _) => assert TypeName(u)[0] == 'L';
    case ColumnNode(_) => assert TypeName(u)[0] == 'C';
    case RowNode(_) => assert TypeName(u)[0] == 'R';
    case EntryCardNode(_) => assert TypeName(u)[0] == 'E';
  }

  function Text<E>(text: string): (r: CustomUI<E>)
    ensures TypeName(r) == "Text" && r.text == text
  {
    TextNode(text)
  }

  /** `Timestamp(timestamp, display = "Relative")`. */
  function Timestamp<E>(timestamp: string, display: Option<Display>): (r: CustomUI<E>)
    ensures TypeName(r) == "TimeStamp" && r.timestamp == timestamp
    ensures r.display == (if display.Some? then display.value else Relative)
  {
    TimeStampNode(timestamp, display.GetOr(Relative))
  }

  /** Leaving the display out is the same as asking for a relative one. */
  lemma TimestampDefaultsToRelative<E>(timestamp: string)
    ensures Timestamp<E>(timestamp, None) == Timestamp<E>(timestamp, Some(Relative))
    ensures Timestamp<E>(timestamp, None) != Timestamp<E>(timestamp, Some(Absolute))
  {
  }

  function Image<E>(url: string, header: Option<map<string, string>>): (r: CustomUI<E>)
    ensures TypeName(r) == "Image" && r.image == url && r.header == header
  {
    ImageNode(url, header)
  }

  function Link<E>(url: string, caption: Option<string>): (r: CustomUI<E>)
    ensures TypeName(r) == "Link" && r.link == url && r.caption == caption
  {
    LinkNode(url, caption)
  }

  function EntryCard<E>(entry: E): (r: CustomUI<E>)
    ensures TypeName(r) == "EntryCard" && r.entry == entry
  {
    EntryCardNode(entry)
  }

  /** `children.filter((x) => x !== undefined)`: the defined children, in order. */
  function Defined<E>(children: seq<Option<CustomUI<E>>>): (r: seq<CustomUI<E>>)
    ensures |r| <= |children|
    ensures forall i :: 0 <= i < |r| ==> Some(r[i]) in children
    ensures forall i :: 0 <= i < |children| && children[i].Some? ==> children[i].value in r
    ensures (forall i :: 0 <= i < |children| ==> children[i].Some?) ==> |r| == |children|
  {
    if children == [] then []
    else
      var rest := Defined(children[1..]);
      if children[0].Some? then [children[0].value] + rest else rest
  }

  /** Filtering keeps the order of the arguments: the defined children of two argument
      lists side by side are those of the first followed by those of the second. */
  lemma {:induction false} DefinedAppend<E>(a: seq<Option<CustomUI<E>>>, b: seq<Option<CustomUI<E>>>)
    ensures Defined(a + b) == Defined(a) + Defined(b)
  {
    if a == [] {
      assert a + b == b;
    } else {
      assert (a + b)[0] == a[0];
      assert (a + b)[1..] == a[1..] + b;
      DefinedAppend(a[1..], b);
    }
  }

  /** When every argument is defined, the children are the arguments themselves, in their
      places. */
  lemma {:induction false} DefinedAllPresent<E>(children: seq<Option<CustomUI<E>>>)
    requires forall i :: 0 <= i < |children| ==> children[i].Some?
    ensures |Defined(children)| == |children|
    ensures forall i :: 0 <= i < |children| ==> Defined(children)[i] == children[i].value
  {
    if children != [] {
      var tail := children[1..];
      var rest := Defined(tail);
      DefinedAllPresent(tail);
      var all := Defined(children);
      assert all == [children[0].value] + rest;
      forall i | 0 <= i < |children| ensures all[i] == children[i].value {
        if i > 0 {
          assert all[i] == rest[i - 1];
          assert tail[i - 1] == children[i];
        }
      }
    }
  }

  /** An undefined argument is skipped: it changes nothing in the children. */
  lemma DefinedSkipsUndefined<E>(before: seq<Option<CustomUI<E>>>, after: seq<Option<CustomUI<E>>>)
    ensures Defined(before + [None] + after) == Defined(before + after)
  {
    var none: seq<Option<CustomUI<E>>> := [None];
    assert Defined(none) == [];
    DefinedAppend(before + none, after);
    DefinedAppend(before, none);
    DefinedAppend(before, after);
    assert Defined(before) + [] == Defined(before);
  }

  /** `Column(...children)`. */
  function Column<E>(children: seq<Option<CustomUI<E>>>): (r: CustomUI<E>)
    ensures TypeName(r) == "Column"
    ensures r.children == Defined(children)
    ensures forall i :: 0 <= i < |r.children| ==> Some(r.children[i]) in children
    ensures forall i :: 0 <= i < |children| && children[i].Some? ==> children[i].value in r.children
  {
    ColumnNode(Defined(children))
  }

  /** `Row(...children)`. */
  function Row<E>(children: seq<Option<CustomUI<E>>>): (r: CustomUI<E>)
    ensures TypeName(r) == "Row"
    ensures r.children == Defined(children)
    ensures forall i :: 0 <= i < |r.children| ==> Some(r.children[i]) in children
    ensures forall i :: 0 <= i < |children| && children[i].Some? ==> children[i].value in r.children
  {
    RowNode(Defined(children))
  }

  /** What `If` is applied to: a list of nodes, or one node that may be `undefined`. */
  datatype Slot<E> = Nodes(nodes: seq<CustomUI<E>>) | Maybe(node: Option<CustomUI<E>>)

  /** `If(condition, ui)`: `ui` when the condition holds; otherwise an empty list in place
      of a list and `undefined` in place of a node. */
  function If<E>(condition: bool, ui: Slot<E>): (r: Slot<E>)
    ensures r.Nodes? == ui.Nodes?
    ensures condition ==> r == ui
    ensures !condition ==> r.Nodes? ==> r.nodes == []
    ensures !condition ==> r.Maybe? ==> r.node == None
  {
    if condition then ui
    else if ui.Nodes? then Nodes([])
    else Maybe(None)
  }

  /** The arguments a slot becomes in a call `Column(...)` or `Row(...)`: a list is spread,
      a single node is one argument. */
  function Arguments<E>(slot: Slot<E>): (r: seq<Option<CustomUI<E>>>)
    ensures slot.Maybe? ==> |r| == 1
    ensures slot.Nodes? ==> |r| == |slot.nodes| && forall i :: 0 <= i < |r| ==> r[i] == Some(slot.nodes[i])
  {
    match slot
    case Nodes(nodes) => seq(|nodes|, i requires 0 <= i < |nodes| => Some(nodes[i]))
    case Maybe(node) => [node]
  }

  /** Inside a column or a row, `If(condition, ui)` contributes the defined nodes of `ui` in
      their place when the condition holds, and nothing at all when it does not. */
  lemma IfInContainer<E>(before: seq<Option<CustomUI<E>>>, condition: bool, ui: Slot<E>,
                         after: seq<Option<CustomUI<E>>>)
    ensures Column(before + Arguments(If(condition, ui)) + after).children ==
      Defined(before) + (if condition then Defined(Arguments(ui)) else []) + Defined(after)
    ensures Row(before + Arguments(If(condition, ui)) + after).children ==
      Defined(before) + (if condition then Defined(Arguments(ui)) else []) + Defined(after)
  {
    var mid := Arguments(If(condition, ui));
    DefinedAppend(before + mid, after);
    DefinedAppend(before, mid);
    if !condition {
      if ui.Nodes? {
        assert mid == [];
      } else {
        assert mid == [None];
      }
      assert Defined(mid) == [];
    }
  }
}
