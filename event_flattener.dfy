/**
 * com.anode.tool.event.EventFlattener: turns an event into a row of text
 * fields (its date, its date as epoch milliseconds, its type) and gives
 * the matching column titles, each column switched on or off by a flag.
 *
 * An event is reduced to what the flattener reads from it: the time of its
 * date in milliseconds since 1970 and the simple name of its class. The
 * date formatter is a function from that time to text.
 */
module Events {
  import opened JavaLang

  /** What getFields reads from an event: date.getTime() and getClass().getSimpleName(). */
  datatype Event = Event(time: Int64, simpleName: string)

  /** The column titles, in the order of the fields. */
  const FieldTitles: seq<string> := ["Date", "Millisecs. 1970", "Type"]

  /** The positions whose flag is on, in increasing order. */
  function Chosen(flags: seq<bool>): (r: seq<nat>)
    ensures |r| <= |flags|
  {
    if flags == [] then []
    else
      var front := Chosen(flags[..|flags| - 1]);
      if flags[|flags| - 1] then front + [|flags| - 1] else front
  }

  /** Every chosen position has its flag on, they increase, and every position with its flag on is chosen. */
  lemma {:induction false} ChosenSpec(flags: seq<bool>)
    ensures forall k :: 0 <= k < |Chosen(flags)| ==> Chosen(flags)[k] < |flags| && flags[Chosen(flags)[k]]
    ensures forall k, l :: 0 <= k < l < |Chosen(flags)| ==> Chosen(flags)[k] < Chosen(flags)[l]
    ensures forall i :: 0 <= i < |flags| && flags[i] ==> i in Chosen(flags)
  {
    if flags != [] {
      var n := |flags| - 1;
      ChosenSpec(flags[..n]);
    }
  }

  /** The items whose flag is on, in their order. */
  function Selected<X>(flags: seq<bool>, xs: seq<X>): (r: seq<X>)
    requires |xs| == |flags|
    ensures |r| <= |xs|
  {
    if flags == [] then []
    else
      var n := |flags| - 1;
      var front := Selected(flags[..n], xs[..n]);
      if flags[n] then front + [xs[n]] else front
  }

  /** The k-th kept item is the item at the k-th chosen position. */
  lemma {:induction false} SelectedAt<X>(flags: seq<bool>, xs: seq<X>)
    requires |xs| == |flags|
    ensures |Selected(flags, xs)| == |Chosen(flags)|
    ensures forall k :: 0 <= k < |Chosen(flags)| ==> Chosen(flags)[k] < |xs| && Selected(flags, xs)[k] == xs[Chosen(flags)[k]]
  {
    ChosenSpec(flags);
    if flags != [] {
      var n := |flags| - 1;
      SelectedAt(flags[..n], xs[..n]);
      ChosenSpec(flags[..n]);
    }
  }

  /** One more item is kept exactly when its flag is on. */
  lemma SelectedSnoc<X>(flags: seq<bool>, xs: seq<X>, f: bool, x: X)
    requires |xs| == |flags|
    ensures Selected(flags + [f], xs + [x]) == Selected(flags, xs) + (if f then [x] else [])
  {
    assert (flags + [f])[..|flags|] == flags;
    assert (xs + [x])[..|xs|] == xs;
  }

  /** With every flag on, every item is kept. */
  lemma {:induction false} SelectedAll<X>(flags: seq<bool>, xs: seq<X>)
    requires |xs| == |flags| && forall i :: 0 <= i < |flags| ==> flags[i]
    ensures Selected(flags, xs) == xs
  {
    if flags != [] {
      var n := |flags| - 1;
      SelectedAll(flags[..n], xs[..n]);
      SelectedSnoc(flags[..n], xs[..n], flags[n], xs[n]);
      assert flags[..n] + [flags[n]] == flags;
      assert xs[..n] + [xs[n]] == xs;
    }
  }

  /** Three items under three flags, one after the other. */
  lemma SelectedOfThree<X>(a: bool, b: bool, c: bool, x: X, y: X, z: X)
    ensures Selected([a, b, c], [x, y, z]) == (if a then [x] else []) + (if b then [y] else []) + (if c then [z] else [])
  {
    assert [a, b, c][..2] == [a, b] && [a, b][..1] == [a] && [a][..0] == [];
    assert [x, y, z][..2] == [x, y] && [x, y][..1] == [x] && [x][..0] == [];
    assert Selected([a], [x]) == if a then [x] else [];
  }

  /** An ArrayList<String> that is only ever appended to. */
  class StringList {
    var items: seq<string>

    constructor ()
      ensures items == []
    {
      items := [];
    }

    method Add(s: string)
      modifies this`items
      ensures items == old(items) + [s]
    {
      items := items + [s];
    }
  }

  class Flattener {
    var dateFormatter: Int64 -> string
    var appendEventType: bool
    var appendDate: bool
    var appendNumericalDate: bool
    /** The list filled by the latest getFields call; null before the first. */
    var list: StringList?

    /** Every flag starts on. */
    constructor (dateFormatter: Int64 -> string)
      ensures this.dateFormatter == dateFormatter
      ensures appendEventType && appendDate && appendNumericalDate
      ensures list == null
    {
      this.dateFormatter := dateFormatter;
      appendEventType := true;
      appendDate := true;
      appendNumericalDate := true;
      list := null;
    }

    /** The flags in the order of the fields. */
    function Flags(): (f: seq<bool>)
      reads this
      ensures |f| == |FieldTitles|
    {
      [appendDate, appendNumericalDate, appendEventType]
    }

    /** Every field of an event, whatever the flags: formatted date, milliseconds, class name. */
    function Values(event: Event): (v: seq<string>)
      reads this
      ensures |v| == |FieldTitles|
    {
      [dateFormatter(event.time), DecimalString(event.time as int), event.simpleName]
    }

    function FieldNames(): seq<string>
      reads this
    {
      Selected(Flags(), FieldTitles)
    }

    function Fields(event: Event): seq<string>
      reads this
    {
      Selected(Flags(), Values(event))
    }

    /**
     * getFields: a new list in the list field holding the enabled fields
     * in order. Only the list field of this flattener changes, and the list
     * is new, so a list returned by an earlier call keeps its items.
     */
    method GetFields(event: Event) returns (r: StringList)
      modifies this`list
      ensures fresh(r) && list == r
      ensures r.items == Fields(event)
    {
      SelectedOfThree(appendDate, appendNumericalDate, appendEventType,
                      dateFormatter(event.time), DecimalString(event.time as int), event.simpleName);
      list := new StringList();
      if appendDate {
        AppendDate(event);
      }
      if appendNumericalDate {
        AppendNumericalDate(event);
      }
      if appendEventType {
        AppendEventType(event);
      }
      r := list;
    }

    /** appendDate: the formatted date of the event goes at the end of the list. */
    method AppendDate(event: Event)
      requires list != null
      modifies list`items
      ensures list.items == old(list.items) + [dateFormatter(event.time)]
    {
      list.Add(dateFormatter(event.time));
    }

    /** appendNumericalDate: the epoch milliseconds in decimal go at the end of the list. */
    method AppendNumericalDate(event: Event)
      requires list != null
      modifies list`items
      ensures list.items == old(list.items) + [DecimalString(event.time as int)]
    {
      list.Add(DecimalString(event.time as int));
    }

    /** appendEventType: the simple name of the event's class goes at the end of the list. */
    method AppendEventType(event: Event)
      requires list != null
      modifies list`items
      ensures list.items == old(list.items) + [event.simpleName]
    {
      list.Add(event.simpleName);
    }

    /** getFieldnames: the titles of the enabled fields, in the order of the fields. */
    method GetFieldnames() returns (fields: seq<string>)
      ensures fields == FieldNames()
    {
      SelectedOfThree(appendDate, appendNumericalDate, appendEventType, "Date", "Millisecs. 1970", "Type");
      fields := [];
      if appendDate {
        fields := fields + ["Date"];
      }
      if appendNumericalDate {
        fields := fields + ["Millisecs. 1970"];
      }
      if appendEventType {
        fields := fields + ["Type"];
      }
    }

    method SetAppendEventType(appendEventType: bool)
      modifies this`appendEventType
      ensures this.appendEventType == appendEventType
    {
      this.appendEventType := appendEventType;
    }

    method SetAppendDate(appendDate: bool)
      modifies this`appendDate
      ensures this.appendDate == appendDate
    {
      this.appendDate := appendDate;
    }

    method SetAppendNumericalDate(appendNumericalDate: bool)
      modifies this`appendNumericalDate
      ensures this.appendNumericalDate == appendNumericalDate
    {
      this.appendNumericalDate := appendNumericalDate;
    }

    method SetDateFormatter(dateFormatter: Int64 -> string)
      modifies this`dateFormatter
      ensures this.dateFormatter == dateFormatter
    {
      this.dateFormatter := dateFormatter;
    }

    /**
     * Fields and titles line up: there are as many of each, and the field
     * at the position of a title is the value that title names.
     */
    lemma FieldsMatchNames(event: Event)
      ensures |Fields(event)| == |FieldNames()|
      ensures forall k :: 0 <= k < |FieldNames()| && FieldNames()[k] == "Date" ==> Fields(event)[k] == dateFormatter(event.time)
      ensures forall k :: 0 <= k < |FieldNames()| && FieldNames()[k] == "Millisecs. 1970" ==> Fields(event)[k] == DecimalString(event.time as int)
      ensures forall k :: 0 <= k < |FieldNames()| && FieldNames()[k] == "Type" ==> Fields(event)[k] == event.simpleName
    {
      SelectedAt(Flags(), FieldTitles);
      SelectedAt(Flags(), Values(event));
    }

    /** With the default flags, all three fields and titles are there, in order. */
    lemma DefaultFields(event: Event)
      requires appendEventType && appendDate && appendNumericalDate
      ensures FieldNames() == ["Date", "Millisecs. 1970", "Type"]
      ensures Fields(event) == [dateFormatter(event.time), DecimalString(event.time as int), event.simpleName]
    {
      SelectedAll(Flags(), FieldTitles);
      SelectedAll(Flags(), Values(event));
    }
  }
}
