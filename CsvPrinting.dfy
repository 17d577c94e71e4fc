/** The CSV printing of the streaming tool: a header of column names and a
    line of entries built from one message by walking its fields, and the
    printers that join either with commas. A message is given by its fields
    as reflection reports them, with every scalar already rendered as text. */
module CsvPrinting {
  import opened Common

  /** A field's content: a rendered scalar or a nested message. */
  datatype Value = Text(s: string) | Sub(msg: Message)

  /** A field of a message. A singular field may be optional and then only
      counts when it is set; a repeated field has a size and is either a
      list of messages or a list of scalars. */
  datatype Field =
    | Single(name: string, optional: bool, present: bool, value: Value)
    | Repeated(name: string, isMessage: bool, items: seq<Value>)

  datatype Message = Message(fields: seq<Field>)

  /** A singular field that takes part in the output. */
  predicate Counts(f: Field)
    requires f.Single?
  {
    !f.optional || f.present
  }

  /** Every name with p in front of it. */
  function Prefix(p: string, names: seq<string>): (r: seq<string>)
    ensures |r| == |names|
  {
    if names == [] then [] else [p + names[0]] + Prefix(p, names[1..])
  }

  /** Name k of a prefixed list is p followed by the k-th given name. */
  lemma {:induction false} PrefixAt(p: string, names: seq<string>, k: nat)
    requires k < |names|
    ensures Prefix(p, names)[k] == p + names[k]
  {
    if k > 0 {
      PrefixAt(p, names[1..], k - 1);
    }
  }

  /** Every name a prefixed header holds starts with its prefix. */
  lemma PrefixStarts(p: string, names: seq<string>)
    ensures forall k :: 0 <= k < |names| ==> p <= Prefix(p, names)[k]
  {
    forall k | 0 <= k < |names| ensures p <= Prefix(p, names)[k] {
      PrefixAt(p, names, k);
    }
  }

  lemma {:induction false} PrefixAppend(p: string, a: seq<string>, b: seq<string>)
    ensures Prefix(p, a + b) == Prefix(p, a) + Prefix(p, b)
  {
    if a != [] {
      assert (a + b)[0] == a[0] && (a + b)[1..] == a[1..] + b;
      PrefixAppend(p, a[1..], b);
    } else {
      assert a + b == b;
    }
  }

  /** One more field's names, prefixed, follow the earlier fields' names. */
  lemma PrefixNamesStep(p: string, m: Message, i: nat)
    requires i < |m.fields| && NamesUpTo(m, i).Some? && FieldNames(m, i).Some?
    ensures NamesUpTo(m, i + 1).Some?
    ensures Prefix(p, NamesUpTo(m, i + 1).value)
         == Prefix(p, NamesUpTo(m, i).value) + Prefix(p, FieldNames(m, i).value)
  {
    PrefixAppend(p, NamesUpTo(m, i).value, FieldNames(m, i).value);
  }

  /** Prefixing twice is prefixing once with both prefixes. */
  lemma PrefixPrefix(p: string, q: string, names: seq<string>)
    ensures Prefix(p, Prefix(q, names)) == Prefix(p + q, names)
  {
    var l, r := Prefix(p, Prefix(q, names)), Prefix(p + q, names);
    assert |l| == |r|;
    forall k | 0 <= k < |names| ensures l[k] == r[k] {
      PrefixAt(p, Prefix(q, names), k);
      PrefixAt(q, names, k);
      PrefixAt(p + q, names, k);
      assert p + (q + names[k]) == (p + q) + names[k];
    }
  }

  /** The column names of a repeated scalar field of size n: name_0 to
      name_{n-1}. */
  function IndexedNames(name: string, n: nat): (r: seq<string>)
    ensures |r| == n
    ensures forall k :: 0 <= k < n ==> r[k] == name + "_" + NatToString(k)
  {
    if n == 0 then [] else IndexedNames(name, n - 1) + [name + "_" + NatToString(n - 1)]
  }

  // ---------------------------------------------------------------------
  // What Header << message and Line << message produce

  /** The column names of a message, None where the header walk asks for a
      singular message of a repeated message field (undefined). */
  function Names(m: Message): Option<seq<string>>
    decreases m, |m.fields| + 1, 2
  {
    NamesUpTo(m, |m.fields|)
  }

  /** The names of the first n fields. */
  function NamesUpTo(m: Message, n: nat): Option<seq<string>>
    requires n <= |m.fields|
    decreases m, n, 2
  {
    if n == 0 then Some([])
    else match (NamesUpTo(m, n - 1), FieldNames(m, n - 1))
      case (Some(a), Some(b)) => Some(a + b)
      case (_, _) => None
  }

  function FieldNames(m: Message, i: nat): Option<seq<string>>
    requires i < |m.fields|
    decreases m, i + 1, 1
  {
    match m.fields[i]
    case Repeated(name, isMessage, items) =>
      if !isMessage then Some(IndexedNames(name, |items|))
      else if items == [] then Some([])
      else None
    case Single(name, optional, present, value) =>
      if optional && !present then Some([])
      else match value
        case Text(_) => Some([name])
        case Sub(sub) =>
          match Names(sub)
          case Some(ns) => Some(Prefix(name + "_", ns))
          case None => None
  }

  /** The entries of a message. */
  function Entries(m: Message): seq<string>
    decreases m, |m.fields| + 1, 2, 0
  {
    EntriesUpTo(m, |m.fields|)
  }

  function EntriesUpTo(m: Message, n: nat): seq<string>
    requires n <= |m.fields|
    decreases m, n, 2, 0
  {
    if n == 0 then [] else EntriesUpTo(m, n - 1) + FieldEntries(m, n - 1)
  }

  function FieldEntries(m: Message, i: nat): seq<string>
    requires i < |m.fields|
    decreases m, i + 1, 1, 0
  {
    match m.fields[i]
    case Repeated(_, _, items) => ItemEntries(m, i, |items|)
    case Single(_, optional, present, value) =>
      if optional && !present then []
      else match value
        case Text(s) => [s]
        case Sub(sub) => Entries(sub)
  }

  /** The entries of the first k items of a repeated field. */
  function ItemEntries(m: Message, i: nat, k: nat): seq<string>
    requires i < |m.fields| && m.fields[i].Repeated? && k <= |m.fields[i].items|
    decreases m, i + 1, 0, k
  {
    if k == 0 then []
    else ItemEntries(m, i, k - 1) + match m.fields[i].items[k - 1]
      case Text(s) => [s]
      case Sub(sub) => Entries(sub)
  }

  // ---------------------------------------------------------------------
  // Header and line agree

  /** A message whose repeated fields hold scalars only, at every depth. */
  predicate ScalarLists(m: Message)
    decreases m
  {
    forall i :: 0 <= i < |m.fields| ==>
      match m.fields[i]
      case Repeated(_, isMessage, items) => !isMessage && forall k :: 0 <= k < |items| ==> items[k].Text?
      case Single(_, _, _, value) => value.Sub? ==> ScalarLists(value.msg)
  }

  /** Without repeated message fields the header is defined and has one
      column per entry of the line. */
  lemma {:induction false} ColumnsMatchEntries(m: Message)
    requires ScalarLists(m)
    ensures Names(m).Some? && |Names(m).value| == |Entries(m)|
    decreases m, |m.fields| + 1
  {
    ColumnsMatchUpTo(m, |m.fields|);
  }

  lemma {:induction false} ColumnsMatchUpTo(m: Message, n: nat)
    requires ScalarLists(m) && n <= |m.fields|
    ensures NamesUpTo(m, n).Some? && |NamesUpTo(m, n).value| == |EntriesUpTo(m, n)|
    decreases m, n
  {
    if n > 0 {
      ColumnsMatchUpTo(m, n - 1);
      var i := n - 1;
      match m.fields[i]
      case Repeated(name, isMessage, items) =>
        ScalarItemEntries(m, i, |items|);
      case Single(name, optional, present, value) =>
        if !(optional && !present) && value.Sub? {
          ColumnsMatchEntries(value.msg);
        }
    }
  }

  lemma {:induction false} ScalarItemEntries(m: Message, i: nat, k: nat)
    requires i < |m.fields| && m.fields[i].Repeated? && k <= |m.fields[i].items|
    requires forall j :: 0 <= j < |m.fields[i].items| ==> m.fields[i].items[j].Text?
    ensures |ItemEntries(m, i, k)| == k
    ensures forall j :: 0 <= j < k ==> ItemEntries(m, i, k)[j] == m.fields[i].items[j].s
  {
    if k > 0 {
      ScalarItemEntries(m, i, k - 1);
    }
  }

  /** A repeated scalar field of size n gives the columns name_0 to
      name_{n-1} and the n rendered values, in order. */
  lemma RepeatedScalarContribution(m: Message, i: nat)
    requires i < |m.fields| && m.fields[i].Repeated? && !m.fields[i].isMessage
    requires forall j :: 0 <= j < |m.fields[i].items| ==> m.fields[i].items[j].Text?
    ensures FieldNames(m, i) == Some(IndexedNames(m.fields[i].name, |m.fields[i].items|))
    ensures |FieldEntries(m, i)| == |m.fields[i].items|
    ensures forall j :: 0 <= j < |m.fields[i].items| ==> FieldEntries(m, i)[j] == m.fields[i].items[j].s
  {
    ScalarItemEntries(m, i, |m.fields[i].items|);
  }

  /** The message with its unset optional fields dropped. */
  function SetFields(fs: seq<Field>): (r: seq<Field>)
    ensures |r| <= |fs|
  {
    if fs == [] then []
    else
      var init := SetFields(fs[..|fs| - 1]);
      var f := fs[|fs| - 1];
      if f.Single? && !Counts(f) then init else init + [f]
  }

  /** Unset optional fields contribute nothing: dropping them changes
      neither the header nor the line. */
  lemma {:induction false} UnsetFieldsContributeNothing(m: Message)
    ensures Names(Message(SetFields(m.fields))) == Names(m)
    ensures Entries(Message(SetFields(m.fields))) == Entries(m)
  {
    UnsetUpTo(m, |m.fields|);
    assert m.fields[..|m.fields|] == m.fields;
  }

  lemma {:induction false} UnsetUpTo(m: Message, n: nat)
    requires n <= |m.fields|
    ensures NamesUpTo(Message(SetFields(m.fields[..n])), |SetFields(m.fields[..n])|) == NamesUpTo(m, n)
    ensures EntriesUpTo(Message(SetFields(m.fields[..n])), |SetFields(m.fields[..n])|) == EntriesUpTo(m, n)
  {
    if n > 0 {
      UnsetUpTo(m, n - 1);
      assert m.fields[..n][..n - 1] == m.fields[..n - 1];
      var f := m.fields[n - 1];
      if f.Single? && !Counts(f) {
        UnsetSkipped(m, n);
      } else {
        UnsetKept(m, n);
      }
    }
  }

  /** An unset optional field adds nothing, with or without the others. */
  lemma UnsetSkipped(m: Message, n: nat)
    requires 0 < n <= |m.fields| && m.fields[n - 1].Single? && !Counts(m.fields[n - 1])
    requires NamesUpTo(Message(SetFields(m.fields[..n - 1])), |SetFields(m.fields[..n - 1])|) == NamesUpTo(m, n - 1)
    requires EntriesUpTo(Message(SetFields(m.fields[..n - 1])), |SetFields(m.fields[..n - 1])|) == EntriesUpTo(m, n - 1)
    ensures NamesUpTo(Message(SetFields(m.fields[..n])), |SetFields(m.fields[..n])|) == NamesUpTo(m, n)
    ensures EntriesUpTo(Message(SetFields(m.fields[..n])), |SetFields(m.fields[..n])|) == EntriesUpTo(m, n)
  {
    assert m.fields[..n][..n - 1] == m.fields[..n - 1];
    assert SetFields(m.fields[..n]) == SetFields(m.fields[..n - 1]);
    assert FieldNames(m, n - 1) == Some([]) && FieldEntries(m, n - 1) == [];
    if NamesUpTo(m, n - 1).Some? {
      assert NamesUpTo(m, n - 1).value + [] == NamesUpTo(m, n - 1).value;
    }
    assert EntriesUpTo(m, n - 1) + [] == EntriesUpTo(m, n - 1);
  }

  /** A field that takes part is the last field of the message without the
      unset ones, and adds the same there. */
  lemma UnsetKept(m: Message, n: nat)
    requires 0 < n <= |m.fields| && !(m.fields[n - 1].Single? && !Counts(m.fields[n - 1]))
    requires NamesUpTo(Message(SetFields(m.fields[..n - 1])), |SetFields(m.fields[..n - 1])|) == NamesUpTo(m, n - 1)
    requires EntriesUpTo(Message(SetFields(m.fields[..n - 1])), |SetFields(m.fields[..n - 1])|) == EntriesUpTo(m, n - 1)
    ensures NamesUpTo(Message(SetFields(m.fields[..n])), |SetFields(m.fields[..n])|) == NamesUpTo(m, n)
    ensures EntriesUpTo(Message(SetFields(m.fields[..n])), |SetFields(m.fields[..n])|) == EntriesUpTo(m, n)
  {
    assert m.fields[..n][..n - 1] == m.fields[..n - 1];
    var s := Message(SetFields(m.fields[..n]));
    var init := Message(SetFields(m.fields[..n - 1]));
    var f := m.fields[n - 1];
    assert s.fields == init.fields + [f];
    SameFieldsPrefix(init, s, |init.fields|);
    assert s.fields[|init.fields|] == f;
    SameField(s, |init.fields|, m, n - 1);
  }

  /** A message that starts with another's fields agrees with it on them. */
  lemma {:induction false} SameFieldsPrefix(a: Message, b: Message, n: nat)
    requires n <= |a.fields| && n <= |b.fields| && a.fields[..n] == b.fields[..n]
    ensures NamesUpTo(a, n) == NamesUpTo(b, n)
    ensures EntriesUpTo(a, n) == EntriesUpTo(b, n)
  {
    if n > 0 {
      assert a.fields[..n - 1] == a.fields[..n][..n - 1];
      assert b.fields[..n - 1] == b.fields[..n][..n - 1];
      SameFieldsPrefix(a, b, n - 1);
      assert a.fields[n - 1] == a.fields[..n][n - 1];
      SameField(a, n - 1, b, n - 1);
    }
  }

  /** The same field gives the same columns and entries wherever it stands. */
  lemma SameField(a: Message, i: nat, b: Message, j: nat)
    requires i < |a.fields| && j < |b.fields| && a.fields[i] == b.fields[j]
    ensures FieldNames(a, i) == FieldNames(b, j)
    ensures FieldEntries(a, i) == FieldEntries(b, j)
  {
    if a.fields[i].Repeated? {
      SameItems(a, i, b, j, |a.fields[i].items|);
    }
  }

  lemma {:induction false} SameItems(a: Message, i: nat, b: Message, j: nat, k: nat)
    requires i < |a.fields| && j < |b.fields| && a.fields[i] == b.fields[j]
    requires a.fields[i].Repeated? && k <= |a.fields[i].items|
    ensures ItemEntries(a, i, k) == ItemEntries(b, j, k)
  {
    if k > 0 {
      SameItems(a, i, b, j, k - 1);
    }
  }

  /** Once a field's columns are undefined, so are the message's. */
  lemma {:induction false} UndefinedStays(m: Message, i: nat, n: nat)
    requires i < n <= |m.fields| && FieldNames(m, i).None?
    ensures NamesUpTo(m, n).None?
  {
    if n - 1 > i {
      UndefinedStays(m, i, n - 1);
    }
  }

  // ---------------------------------------------------------------------
  // csv::Header

  class Header {
    var fields: seq<string>
    var prefix: string

    constructor ()
      ensures fields == [] && prefix == ""
    {
      fields, prefix := [], "";
    }

    /** Header << field: the field, prefixed, goes at the end. */
    method AppendField(field: string)
      modifies this
      ensures fields == old(fields) + [prefix + field]
      ensures prefix == old(prefix)
    {
      fields := fields + [prefix + field];
    }

    /** Header << other: the other's fields, in order, each with this
        header's prefix in front. */
    method AppendHeader(other: Header)
      requires other != this
      modifies this
      ensures fields == old(fields) + Prefix(prefix, other.fields)
      ensures prefix == old(prefix)
    {
      var i := 0;
      while i < |other.fields|
        invariant 0 <= i <= |other.fields|
        invariant fields == old(fields) + Prefix(prefix, other.fields[..i])
        invariant prefix == old(prefix)
      {
        assert other.fields[..i + 1] == other.fields[..i] + [other.fields[i]];
        PrefixAppend(prefix, other.fields[..i], [other.fields[i]]);
        fields := fields + [prefix + other.fields[i]];
        i := i + 1;
      }
      assert other.fields[..i] == other.fields;
    }

    /** Header::prefixed(p, m): a new header with prefix p that holds m's
        columns. */
    static method Prefixed(p: string, m: Message) returns (h: Header, ok: bool)
      ensures fresh(h) && h.prefix == p
      ensures ok == Names(m).Some?
      ensures ok ==> h.fields == Prefix(p, Names(m).value)
      ensures ok ==> forall k :: 0 <= k < |h.fields| ==> p <= h.fields[k]
      decreases m, 2
    {
      h := new Header();
      h.prefix := p;
      ok := h.AppendMessage(m);
      if ok {
        PrefixStarts(p, Names(m).value);
      }
    }

    /** Header << m: one column per scalar, name_k per item of a repeated
        scalar field, nested messages under name_. The items of a repeated
        message field are asked for as a singular message, which is
        undefined: ok is false. */
    method AppendMessage(m: Message) returns (ok: bool)
      modifies this
      ensures prefix == old(prefix)
      ensures ok == Names(m).Some?
      ensures ok ==> fields == old(fields) + Prefix(prefix, Names(m).value)
      decreases m, 1
    {
      var i := 0;
      while i < |m.fields|
        invariant 0 <= i <= |m.fields|
        invariant prefix == old(prefix)
        invariant NamesUpTo(m, i).Some?
        invariant fields == old(fields) + Prefix(prefix, NamesUpTo(m, i).value)
      {
        var fieldOk := AppendFieldOf(m, i);
        if !fieldOk {
          UndefinedStays(m, i, |m.fields|);
          return false;
        }
        PrefixNamesStep(prefix, m, i);
        i := i + 1;
      }
      ok := true;
    }

    /** The columns of field i of m, as one step of Header << m. */
    method AppendFieldOf(m: Message, i: nat) returns (ok: bool)
      requires i < |m.fields|
      modifies this
      ensures prefix == old(prefix)
      ensures ok == FieldNames(m, i).Some?
      ensures ok ==> fields == old(fields) + Prefix(prefix, FieldNames(m, i).value)
      decreases m, 0
    {
      ok := true;
      match m.fields[i] {
        case Repeated(name, isMessage, items) =>
          if isMessage {
            ok := items == [];
          } else {
            var k := 0;
            while k < |items|
              invariant 0 <= k <= |items|
              invariant prefix == old(prefix)
              invariant fields == old(fields) + Prefix(prefix, IndexedNames(name, k))
            {
              assert IndexedNames(name, k + 1) == IndexedNames(name, k) + [name + "_" + NatToString(k)];
              PrefixAppend(prefix, IndexedNames(name, k), [name + "_" + NatToString(k)]);
              AppendField(name + "_" + NatToString(k));
              k := k + 1;
            }
          }
        case Single(name, optional, present, value) =>
          if !optional || present {
            match value {
              case Text(_) =>
                AppendField(name);
              case Sub(sub) =>
                var h, subOk := Prefixed(name + "_", sub);
                ok := subOk;
                if subOk {
                  AppendHeader(h);
                  PrefixPrefix(prefix, name + "_", Names(sub).value);
                }
            }
          }
      }
    }
  }

  // ---------------------------------------------------------------------
  // csv::Line

  class Line {
    var entries: seq<string>

    constructor ()
      ensures entries == []
    {
      entries := [];
    }

    /** Line << t: one entry at the end. */
    method AppendEntry(t: string)
      modifies this
      ensures entries == old(entries) + [t]
    {
      entries := entries + [t];
    }

    /** Line << m: the rendered values in field order, nested messages
        (also the items of repeated ones) inline. */
    method AppendMessage(m: Message)
      modifies this
      ensures entries == old(entries) + Entries(m)
      decreases m
    {
      var i := 0;
      while i < |m.fields|
        invariant 0 <= i <= |m.fields|
        invariant entries == old(entries) + EntriesUpTo(m, i)
      {
        var before := entries;
        match m.fields[i] {
          case Repeated(name, isMessage, items) =>
            var k := 0;
            while k < |items|
              invariant 0 <= k <= |items|
              invariant entries == before + ItemEntries(m, i, k)
            {
              match items[k] {
                case Text(s) => AppendEntry(s);
                case Sub(sub) => AppendMessage(sub);
              }
              k := k + 1;
            }
          case Single(name, optional, present, value) =>
            if !optional || present {
              match value {
                case Text(s) => AppendEntry(s);
                case Sub(sub) => AppendMessage(sub);
              }
            }
        }
        i := i + 1;
      }
    }
  }

  // ---------------------------------------------------------------------
  // The stream printers

  /** The printer loop: the first item as it is, every later one after a
      comma. */
  method WriteJoined(items: seq<string>) returns (s: string)
    ensures s == Join(",", items)
  {
    s := "";
    var first := true;
    var i := 0;
    while i < |items|
      invariant 0 <= i <= |items|
      invariant first <==> i == 0
      invariant s == Join(",", items[..i])
    {
      if first {
        s := s + items[i];
      } else {
        JoinSnoc(items[..i], items[i]);
        assert items[..i + 1] == items[..i] + [items[i]];
        s := s + "," + items[i];
      }
      first := false;
      i := i + 1;
    }
    assert items[..i] == items;
  }

  lemma {:induction false} JoinSnoc(items: seq<string>, x: string)
    requires items != []
    ensures Join(",", items + [x]) == Join(",", items) + "," + x
  {
    if |items| > 1 {
      assert (items + [x])[1..] == items[1..] + [x];
      JoinSnoc(items[1..], x);
    } else {
      assert items + [x] == [items[0], x];
    }
  }

  /** ostream << header: the column names separated by commas. */
  method PrintHeader(header: Header) returns (s: string)
    ensures s == Join(",", header.fields)
  {
    s := WriteJoined(header.fields);
  }

  /** ostream << line: the entries separated by commas. */
  method PrintLine(line: Line) returns (s: string)
    ensures s == Join(",", line.entries)
  {
    s := WriteJoined(line.entries);
  }

  /** A printed row has k - 1 separators more than its k entries hold, and
      entries free of commas are read back from it unchanged. */
  lemma PrintedRowReadsBack(items: seq<string>)
    requires items != []
    requires forall k :: 0 <= k < |items| ==> Count(',', items[k]) == 0
    ensures Count(',', Join(",", items)) == |items| - 1
    ensures Split(',', Join(",", items)) == items
  {
    JoinCommaCount(items);
    NoCommas(items);
    SplitJoin(',', items);
  }

  lemma {:induction false} NoCommas(items: seq<string>)
    requires forall k :: 0 <= k < |items| ==> Count(',', items[k]) == 0
    ensures CountAll(',', items) == 0
  {
    if items != [] {
      NoCommas(items[1..]);
    }
  }
}
