/** Call metadata, and the builder through which every change to it goes. */
module Metadata {
  import opened Common

  datatype Entry = Entry(key: string, value: string)
  datatype BinaryEntry = BinaryEntry(key: string, value: Bytes)

  /** Text and binary entries, each in order; a key may occur more than once. */
  datatype Metadata = Metadata(text: seq<Entry>, binary: seq<BinaryEntry>)

  /** The rules of the contract, which are not part of this model: what a builder accepts, and which keys can be looked
      up. */
  datatype Rules = Rules(accepts: Entry -> bool, acceptsBinary: BinaryEntry -> bool, isKey: string -> bool)

  /** The metadata of a reply, whose entries may not all be readable. */
  datatype View = View(text: Option<seq<Entry>>, binary: Option<seq<Option<BinaryEntry>>>)

  function ViewOf(m: Metadata): View {
    View(Some(m.text), Some(seq(|m.binary|, i requires 0 <= i < |m.binary| => Some(m.binary[i]))))
  }

  function ValuesOf(text: seq<Entry>, key: string): seq<string> {
    if text == [] then []
    else ValuesOf(text[..|text| - 1], key) + if text[|text| - 1].key == key then [text[|text| - 1].value] else []
  }

  /** What `get_values` gives, if the key can be looked up. */
  function Values(rules: Rules, m: Metadata, key: string): Option<seq<string>> {
    if rules.isKey(key) then Some(ValuesOf(m.text, key)) else None
  }

  predicate HasKey(text: seq<Entry>, key: string) { exists e | e in text :: e.key == key }

  lemma {:induction false} HasKeyIffValues(text: seq<Entry>, key: string)
    ensures HasKey(text, key) <==> ValuesOf(text, key) != []
  {
    if text != [] {
      var init, last := text[..|text| - 1], text[|text| - 1];
      assert text == init + [last];
      HasKeyIffValues(init, key);
    }
  }

  // ---------------------------------------------------------------- what the extender computes

  predicate Accepted(rules: Rules, text: seq<Entry>) { forall e | e in text :: rules.accepts(e) }

  /** The same entries, when all of them can be read and are accepted. */
  function Copied(rules: Rules, view: View): Option<Metadata> {
    if view.text.None? || !Accepted(rules, view.text.value) || view.binary.None? then None
    else if exists b | b in view.binary.value :: b.None? || !rules.acceptsBinary(b.value) then None
    else
      var readable := view.binary.value;
      Some(Metadata(view.text.value,
                    seq(|readable|, i requires 0 <= i < |readable| => assert readable[i].Some?; readable[i].value)))
  }

  function Appended(rules: Rules, source: Metadata, entry: Entry): Option<Metadata> {
    if Copied(rules, ViewOf(source)).Some? && rules.accepts(entry)
    then Some(source.(text := source.text + [entry])) else None
  }

  /** The additions whose key the source does not have. */
  function Missing(source: seq<Entry>, added: seq<Entry>): seq<Entry> {
    if added == [] then [] else
    var last := added[|added| - 1];
    Missing(source, added[..|added| - 1]) + if HasKey(source, last.key) then [] else [last]
  }

  predicate Lookable(rules: Rules, added: seq<Entry>) { forall e | e in added :: rules.isKey(e.key) }

  function Extended(rules: Rules, source: Metadata, added: seq<Entry>): Option<Metadata> {
    if Copied(rules, ViewOf(source)).Some? && Lookable(rules, added) && Accepted(rules, Missing(source.text, added))
    then Some(source.(text := source.text + Missing(source.text, added))) else None
  }

  // ---------------------------------------------------------------- the builder and the extender

  class MetadataBuilder {
    const rules: Rules
    var text: seq<Entry>
    var binary: seq<BinaryEntry>

    constructor (rules: Rules)
      ensures this.rules == rules && text == [] && binary == []
    {
      this.rules := rules;
      text, binary := [], [];
    }

    method Append(entry: Entry) returns (ok: bool)
      modifies this
      ensures ok == rules.accepts(entry) && binary == old(binary)
      ensures text == old(text) + if ok then [entry] else []
    {
      ok := rules.accepts(entry);
      if ok {
        text := text + [entry];
      }
    }

    method AppendBinary(entry: BinaryEntry) returns (ok: bool)
      modifies this
      ensures ok == rules.acceptsBinary(entry) && text == old(text)
      ensures binary == old(binary) + if ok then [entry] else []
    {
      ok := rules.acceptsBinary(entry);
      if ok {
        binary := binary + [entry];
      }
    }

    /** Appends every entry of the view, the text ones first. */
    method AppendAll(view: View) returns (ok: bool)
      requires text == [] && binary == []
      modifies this
      ensures ok <==> Copied(rules, view).Some?
      ensures ok ==> Copied(rules, view) == Some(Metadata(text, binary))
    {
      if view.text.None? {
        return false;
      }
      var entries := view.text.value;
      for i := 0 to |entries|
        invariant text == entries[..i] && binary == [] && Accepted(rules, entries[..i])
      {
        ok := Append(entries[i]);
        if !ok {
          return;
        }
        assert entries[..i + 1] == entries[..i] + [entries[i]];
      }
      assert entries[..|entries|] == entries;
      if view.binary.None? {
        return false;
      }
      var binaries := view.binary.value;
      for i := 0 to |binaries|
        invariant text == entries && |binary| == i
        invariant forall j :: 0 <= j < i ==>
                    binaries[j].Some? && rules.acceptsBinary(binaries[j].value) && binary[j] == binaries[j].value
      {
        if binaries[i].None? {
          return false;
        }
        ok := AppendBinary(binaries[i].value);
        if !ok {
          return;
        }
      }
      assert binary == Copied(rules, view).value.binary;
      ok := true;
    }
  }

  /** A new metadata with the entries of the view. */
  method Copy(rules: Rules, view: View) returns (r: Option<Metadata>)
    ensures r == Copied(rules, view)
  {
    var builder := new MetadataBuilder(rules);
    var ok := builder.AppendAll(view);
    r := if ok then Some(Metadata(builder.text, builder.binary)) else None;
  }

  lemma CopyOfMetadata(rules: Rules, m: Metadata)
    ensures Copied(rules, ViewOf(m)).Some? ==> Copied(rules, ViewOf(m)) == Some(m)
  {
    if Copied(rules, ViewOf(m)).Some? {
      assert Copied(rules, ViewOf(m)).value.binary == m.binary;
    }
  }

  /** One more text entry after those of the source. */
  method Append(rules: Rules, source: Metadata, entry: Entry) returns (r: Option<Metadata>)
    ensures r == Appended(rules, source, entry)
  {
    CopyOfMetadata(rules, source);
    var builder := new MetadataBuilder(rules);
    var ok := builder.AppendAll(ViewOf(source));
    if ok {
      ok := builder.Append(entry);
    }
    r := if ok then Some(Metadata(builder.text, builder.binary)) else None;
  }

  lemma {:induction false} MissingIsKept(source: seq<Entry>, added: seq<Entry>, i: nat)
    requires i < |added| && !HasKey(source, added[i].key)
    ensures added[i] in Missing(source, added)
  {
    if i < |added| - 1 {
      MissingIsKept(source, added[..|added| - 1], i);
    }
  }

  /** The additions for the keys the source does not have, after its own entries. */
  method Extend(rules: Rules, source: Metadata, added: seq<Entry>) returns (r: Option<Metadata>)
    ensures r == Extended(rules, source, added)
  {
    CopyOfMetadata(rules, source);
    var builder := new MetadataBuilder(rules);
    var ok := builder.AppendAll(ViewOf(source));
    if !ok {
      return None;
    }
    for i := 0 to |added|
      invariant builder.rules == rules && builder.binary == source.binary
      invariant builder.text == source.text + Missing(source.text, added[..i])
      invariant Lookable(rules, added[..i]) && Accepted(rules, Missing(source.text, added[..i]))
    {
      assert added[..i + 1] == added[..i] + [added[i]] && added[..i + 1][..i] == added[..i];
      var values := Values(rules, source, added[i].key);
      if values.None? {
        assert added[i] in added;
        return None;
      }
      HasKeyIffValues(source.text, added[i].key);
      if values.value == [] {
        ok := builder.Append(added[i]);
        if !ok {
          MissingIsKept(source.text, added, i);
          return None;
        }
      }
    }
    assert added[..|added|] == added;
    r := Some(Metadata(builder.text, builder.binary));
  }

  // ---------------------------------------------------------------- what extending means

  lemma {:induction false} MissingMembers(source: seq<Entry>, added: seq<Entry>)
    ensures forall e :: e in Missing(source, added) <==> e in added && !HasKey(source, e.key)
  {
    if added != [] {
      var init, last := added[..|added| - 1], added[|added| - 1];
      assert added == init + [last];
      MissingMembers(source, init);
    }
  }

  lemma {:induction false} ValuesAppend(a: seq<Entry>, b: seq<Entry>, key: string)
    ensures ValuesOf(a + b, key) == ValuesOf(a, key) + ValuesOf(b, key)
  {
    if b == [] {
      assert a + b == a;
    } else {
      assert (a + b)[..|a + b| - 1] == a + b[..|b| - 1];
      ValuesAppend(a, b[..|b| - 1], key);
    }
  }

  lemma {:induction false} NothingMissing(source: seq<Entry>, added: seq<Entry>)
    requires forall e :: e in added ==> HasKey(source, e.key)
    ensures Missing(source, added) == []
  {
    if added != [] {
      assert added[|added| - 1] in added;
      NothingMissing(source, added[..|added| - 1]);
    }
  }

  /** What a caller set is left alone: its values stay the same, and a key it has gets no other. */
  lemma ExtendKeepsCallerKeys(rules: Rules, source: Metadata, added: seq<Entry>, key: string)
    requires Extended(rules, source, added).Some? && HasKey(source.text, key)
    ensures var m := Extended(rules, source, added).value;
            source.text <= m.text && m.binary == source.binary && ValuesOf(m.text, key) == ValuesOf(source.text, key)
  {
    MissingMembers(source.text, added);
    ValuesAppend(source.text, Missing(source.text, added), key);
    HasKeyIffValues(Missing(source.text, added), key);
  }

  lemma {:induction false} MissingValues(source: seq<Entry>, added: seq<Entry>, key: string)
    ensures ValuesOf(Missing(source, added), key) == if HasKey(source, key) then [] else ValuesOf(added, key)
  {
    if added != [] {
      var init, last := added[..|added| - 1], added[|added| - 1];
      MissingValues(source, init, key);
      if !HasKey(source, last.key) {
        assert Missing(source, added)[..|Missing(source, added)| - 1] == Missing(source, init);
      } else {
        assert Missing(source, added) == Missing(source, init);
      }
    }
  }

  /** A key the caller did not set gets every value that is added for it, in order. */
  lemma ExtendAddsTheRest(rules: Rules, source: Metadata, added: seq<Entry>, key: string)
    requires Extended(rules, source, added).Some? && !HasKey(source.text, key)
    ensures ValuesOf(Extended(rules, source, added).value.text, key) == ValuesOf(added, key)
  {
    ValuesAppend(source.text, Missing(source.text, added), key);
    MissingValues(source.text, added, key);
    HasKeyIffValues(source.text, key);
  }

  lemma ViewsAccepted(rules: Rules, source: Metadata, m: Metadata)
    requires Copied(rules, ViewOf(source)).Some? && m.binary == source.binary && Accepted(rules, m.text)
    ensures Copied(rules, ViewOf(m)).Some?
  {
  }

  /** Extending again by the same additions changes nothing, and cannot fail. */
  lemma ExtendIsIdempotent(rules: Rules, source: Metadata, added: seq<Entry>)
    requires Extended(rules, source, added).Some?
    ensures var m := Extended(rules, source, added).value; Extended(rules, m, added) == Some(m)
  {
    var m := Extended(rules, source, added).value;
    MissingMembers(source.text, added);
    forall e | e in added ensures HasKey(m.text, e.key) {
      if HasKey(source.text, e.key) {
        var s :| s in source.text && s.key == e.key;
        assert s in m.text;
      } else {
        assert e in m.text;
      }
    }
    NothingMissing(m.text, added);
    assert m.text + [] == m.text;
    ViewsAccepted(rules, source, m);
  }

  /** Metadata of which every entry is accepted: what a builder builds. */
  ghost predicate Acceptable(rules: Rules, m: Metadata) {
    && (forall i :: 0 <= i < |m.text| ==> rules.accepts(m.text[i]))
    && (forall i :: 0 <= i < |m.binary| ==> rules.acceptsBinary(m.binary[i]))
  }

  /** Such metadata can be copied, binary entries and all, and the copy is the same; nothing else can. */
  lemma AcceptableIsCopied(rules: Rules, m: Metadata)
    ensures Copied(rules, ViewOf(m)) == if Acceptable(rules, m) then Some(m) else None
  {
    var readable := ViewOf(m).binary.value;
    assert forall i :: 0 <= i < |m.binary| ==> readable[i] in readable;
    CopyOfMetadata(rules, m);
  }

  /** An entry is appended exactly to metadata that can be copied, if it is accepted; the result can be copied again. */
  lemma AcceptedIsAppended(rules: Rules, m: Metadata, entry: Entry)
    ensures Appended(rules, m, entry) ==
            if Acceptable(rules, m) && rules.accepts(entry) then Some(Metadata(m.text + [entry], m.binary)) else None
    ensures Appended(rules, m, entry).Some? ==> Acceptable(rules, Appended(rules, m, entry).value)
  {
    AcceptableIsCopied(rules, m);
  }

  /** Such metadata is extended exactly when every key can be looked up and every addition it lacks is accepted. */
  lemma AcceptedIsExtended(rules: Rules, m: Metadata, added: seq<Entry>)
    ensures Extended(rules, m, added).Some? <==>
              Acceptable(rules, m)
              && forall i :: 0 <= i < |added| ==>
                   rules.isKey(added[i].key)
                   && (rules.accepts(added[i]) || exists e :: e in m.text && e.key == added[i].key)
    ensures Extended(rules, m, added).Some? ==> Acceptable(rules, Extended(rules, m, added).value)
  {
    AcceptableIsCopied(rules, m);
    MissingMembers(m.text, added);
    assert forall i :: 0 <= i < |added| ==> added[i] in added;
  }

  /** A reply is copied exactly when all of it can be read and is accepted, entry by entry and in order. */
  lemma ReadableIsCopied(rules: Rules, view: View)
    ensures Copied(rules, view).Some? <==>
              exists m :: Acceptable(rules, m) && view == ViewOf(m)
    ensures forall m :: Acceptable(rules, m) && view == ViewOf(m) ==> Copied(rules, view) == Some(m)
  {
    if Copied(rules, view).Some? {
      var m := Copied(rules, view).value;
      assert forall i :: 0 <= i < |view.text.value| ==> view.text.value[i] in view.text.value;
      assert forall i :: 0 <= i < |view.binary.value| ==> view.binary.value[i] in view.binary.value;
      assert view.binary.value == ViewOf(m).binary.value;
      assert Acceptable(rules, m) && view == ViewOf(m);
    }
    forall m | Acceptable(rules, m) && view == ViewOf(m) ensures Copied(rules, view) == Some(m) {
      AcceptableIsCopied(rules, m);
    }
  }
}
