/** Aliases inside aliases: entries with tag 20 hold another record, which is expanded in turn. */
module NestedAliases {
  import opened Bytes
  import opened Aliases
  import opened AliasIO

  const NESTED: int16 := 20
  const VALUE_CAPACITY := 65536

  /** The value buffer of an entry: what was read, then zeros up to its fixed size. */
  function Buffer(e: Entry): (s: seq<byte>)
    requires |e.value| <= VALUE_CAPACITY
    ensures |s| == VALUE_CAPACITY && e.value <= s
  {
    e.value + seq(VALUE_CAPACITY - |e.value|, i => 0)
  }

  /** The bytes that are parsed for a nested alias: as many as the entry's length says. */
  function NestedBytes(e: Entry): (s: seq<byte>)
    requires |e.value| <= VALUE_CAPACITY
    ensures |s| == e.length
  {
    Buffer(e)[..e.length]
  }

  /** The nested record can be parsed; if not, the expansion has no alias to go on with. */
  predicate Parses(data: seq<byte>) {
    |data| >= HEADER_SIZE && ParseAlias(data).Some?
  }

  function EntriesOf(data: seq<byte>): seq<Entry>
    requires Parses(data)
  {
    ParseAlias(data).value.entries
  }

  // ----- nested records shrink -----

  /** An entry takes four bytes and its value from the record it is in. */
  lemma {:induction false} EntrySize(data: seq<byte>, pos: nat, i: nat)
    requires pos <= |data| && ParseEntries(data, pos).Some? && i < |ParseEntries(data, pos).value|
    ensures EntryFits(ParseEntries(data, pos).value[i])
    ensures pos + 4 + |ParseEntries(data, pos).value[i].value| <= |data|
    decreases i
  {
    hide ReadI16, ReadU16;
    if i > 0 {
      EntrySize(data, pos + 4 + Padded16(ReadU16(data, pos + 2).value), i - 1);
    }
  }

  lemma ParsedEntrySize(data: seq<byte>, e: Entry)
    requires Parses(data) && e in EntriesOf(data)
    ensures EntryFits(e) && HEADER_SIZE + 4 + |e.value| <= |data| <= 0xFFFF
  {
    hide ParseHeader, ParseEntries;
    var i :| 0 <= i < |EntriesOf(data)| && EntriesOf(data)[i] == e;
    EntrySize(data, HEADER_SIZE, i);
  }

  /** A length of 65535 was padded to 0: its buffer is all zeros, and so is the size it is checked against. */
  lemma WrappedNeverParses(e: Entry)
    requires EntryFits(e) && e.length == 0xFFFF
    ensures !Parses(NestedBytes(e))
  {
    var data := NestedBytes(e);
    assert Padded16(e.length) == 0;
    assert e.value == [];
    assert data[4] == 0 && data[5] == 0;
    assert data[4..6] == U16(0);
    assert At(data, 4, U16(0));
    assert ReadU16(data, 4) == Some(0);
    assert ParseHeader(data).recordSize == 0;
  }

  /** A nested record that parses is at least 154 bytes smaller than the record around it. */
  lemma NestedShrinks(data: seq<byte>, e: Entry)
    requires Parses(data) && e in EntriesOf(data)
    ensures |e.value| <= VALUE_CAPACITY
    ensures Parses(NestedBytes(e)) ==> e.length + HEADER_SIZE + 4 <= |data|
  {
    hide Parses, EntriesOf;
    ParsedEntrySize(data, e);
    if Parses(NestedBytes(e)) && e.length == 0xFFFF {
      WrappedNeverParses(e);
    }
  }

  // ----- chains -----

  ghost predicate Nests(outer: seq<byte>, inner: seq<byte>) {
    Parses(outer) && exists e ::
      e in EntriesOf(outer) && e.tag == NESTED && |e.value| <= VALUE_CAPACITY && inner == NestedBytes(e)
  }

  /** Records on the expansion's stack, outermost first. */
  ghost predicate NestingChain(chain: seq<seq<byte>>) {
    forall i {:trigger chain[i]} :: 0 < i < |chain| ==> Nests(chain[i - 1], chain[i])
  }

  /** However a record is built, at most 425 aliases that parse are nested in each other. */
  lemma {:induction false} NestingBound(chain: seq<seq<byte>>)
    requires NestingChain(chain) && forall i :: 0 <= i < |chain| ==> Parses(chain[i])
    ensures |chain| <= 425
  {
    if chain != [] {
      hide Nests, Parses;
      ChainShrinks(chain, |chain| - 1);
      AtLeastHeader(chain[|chain| - 1]);
      AtLeastHeader(chain[0]);
    }
  }

  lemma AtLeastHeader(data: seq<byte>)
    requires Parses(data)
    ensures HEADER_SIZE <= |data| <= 0xFFFF
  {
    hide ParseHeader, ParseEntries;
  }

  lemma {:induction false} ChainShrinks(chain: seq<seq<byte>>, i: nat)
    requires NestingChain(chain) && i < |chain| && forall j :: 0 <= j < |chain| ==> Parses(chain[j])
    ensures |chain[i]| + 154 * i <= |chain[0]|
  {
    hide Parses, EntriesOf, NestedBytes;
    if i > 0 {
      ChainShrinks(chain, i - 1);
      assert Nests(chain[i - 1], chain[i]);
      var outer := chain[i - 1];
      var e :| e in EntriesOf(outer) && e.tag == NESTED && |e.value| <= VALUE_CAPACITY && chain[i] == NestedBytes(e);
      NestedShrinks(outer, e);
    }
  }

  // ----- records made of one entry -----

  /** An alias with an empty header and this one entry. */
  function RecordOf(e: Entry): (s: seq<byte>)
    requires HEADER_SIZE + 4 + |e.value| <= 0xFFFF
    ensures |s| == HEADER_SIZE + 4 + |e.value|
  {
    EncodeHeader(EmptyHeader().(recordSize := HEADER_SIZE + 4 + |e.value|)) + EncodeEntry(e)
  }

  lemma RecordOfParses(e: Entry)
    requires EntryFits(e) && HEADER_SIZE + 4 + |e.value| <= 0xFFFF
    ensures Parses(RecordOf(e)) && EntriesOf(RecordOf(e)) == [e]
  {
    var h := EmptyHeader().(recordSize := HEADER_SIZE + 4 + |e.value|);
    assert EncodeEntries([e]) == EncodeEntry(e) + [] == EncodeEntry(e);
    assert GoodTail([]);
    hide EncodeHeader, EncodeEntry, EncodeEntries, GoodTail, ParseAlias;
    AliasRoundTrip(h, [e], []);
    assert EncodeHeader(h) + EncodeEntry(e) + [] == RecordOf(e);
  }

  lemma RecordOfNests(e: Entry)
    requires EntryFits(e) && e.tag == NESTED && HEADER_SIZE + 4 + |e.value| <= 0xFFFF
    ensures Nests(RecordOf(e), NestedBytes(e))
  {
    RecordOfParses(e);
    hide Parses, EntriesOf, NestedBytes, RecordOf;
    assert e in EntriesOf(RecordOf(e));
  }

  /** The empty alias inside `n` others. */
  function Wrapped(n: nat): (s: seq<byte>)
    requires n <= 424
    ensures |s| == HEADER_SIZE + 154 * n
  {
    if n == 0 then EmptyRecord() else RecordOf(Entry(NESTED, |Wrapped(n - 1)|, Wrapped(n - 1)))
  }

  lemma InnermostParses()
    ensures Parses(Wrapped(0))
  {
    hide ParseAlias;
    EmptyRecordParses();
  }

  lemma {:induction false} WrappedNests(n: nat)
    requires 0 < n <= 424
    ensures Parses(Wrapped(n)) && Nests(Wrapped(n), Wrapped(n - 1))
  {
    hide Parses, Nests, RecordOf;
    var inner := Wrapped(n - 1);
    var e := Entry(NESTED, |inner|, inner);
    EntryOf(inner);
    RecordOfParses(e);
    RecordOfNests(e);
  }

  lemma EntryOf(inner: seq<byte>)
    requires |inner| % 2 == 0 && |inner| < 0xFFFF
    ensures EntryFits(Entry(NESTED, |inner|, inner)) && NestedBytes(Entry(NESTED, |inner|, inner)) == inner
  {
  }

  lemma {:induction false} WrappedChain(n: nat) returns (chain: seq<seq<byte>>)
    requires n <= 424
    ensures NestingChain(chain) && |chain| == n + 1 && chain[0] == Wrapped(n)
    ensures forall i :: 0 <= i < |chain| ==> Parses(chain[i])
    decreases n
  {
    hide Parses, Nests, Wrapped;
    if n == 0 {
      InnermostParses();
      chain := [Wrapped(0)];
    } else {
      WrappedNests(n);
      var rest := WrappedChain(n - 1);
      LongerChain(Wrapped(n), rest);
      chain := [Wrapped(n)] + rest;
    }
  }

  /** The bound is attained: 425 aliases that parse can be nested in each other. */
  lemma NestingBoundAttained() returns (chain: seq<seq<byte>>)
    ensures NestingChain(chain) && |chain| == 425 && forall i :: 0 <= i < |chain| ==> Parses(chain[i])
  {
    hide NestingChain, Parses;
    chain := WrappedChain(424);
  }

  // ----- the expansion -----

  datatype Expansion = Dictionary(header: AliasHeader, items: seq<Item>)
  datatype Item = Plain(entry: Entry) | Nested(tag: int16, alias: Expansion)

  /** Expands a record; None where the program would be left with a nested record that is not an alias. */
  function Expand(data: seq<byte>): Option<Expansion>
    decreases |data|, 1, 0
  {
    if !Parses(data) then None
    else
      var items :- ExpandEntries(data, EntriesOf(data));
      Some(Dictionary(ParseAlias(data).value.header, items))
  }

  function ExpandEntries(data: seq<byte>, es: seq<Entry>): (r: Option<seq<Item>>)
    requires Parses(data) && forall e :: e in es ==> e in EntriesOf(data)
    ensures r.Some? ==> |r.value| == |es|
    decreases |data|, 0, 1 + |es|
  {
    if es == [] then Some([])
    else
      NestedShrinks(data, es[0]);
      var item :- if es[0].tag == NESTED then ExpandNested(data, es[0]) else Some(Plain(es[0]));
      var rest :- ExpandEntries(data, es[1..]);
      Some([item] + rest)
  }

  function ExpandNested(data: seq<byte>, e: Entry): Option<Item>
    requires Parses(data) && e in EntriesOf(data) && |e.value| <= VALUE_CAPACITY
    decreases |data|, 0, 0
  {
    NestedShrinks(data, e);
    if !Parses(NestedBytes(e)) then None
    else
      var alias :- Expand(NestedBytes(e));
      Some(Nested(e.tag, alias))
  }

  lemma {:induction false} ExpandedEntry(data: seq<byte>, es: seq<Entry>, i: nat)
    requires Parses(data) && (forall e :: e in es ==> e in EntriesOf(data)) && i < |es|
    requires ExpandEntries(data, es).Some?
    ensures var items := ExpandEntries(data, es).value;
      |items| == |es|
      && (es[i].tag != NESTED ==> items[i] == Plain(es[i]))
      && (es[i].tag == NESTED ==>
            |es[i].value| <= VALUE_CAPACITY && Expand(NestedBytes(es[i])).Some?
            && items[i] == Nested(NESTED, Expand(NestedBytes(es[i])).value))
    decreases |es|
  {
    hide Parses, EntriesOf, NestedBytes, Expand;
    NestedShrinks(data, es[0]);
    if |es| > 1 {
      ExpandedEntry(data, es[1..], if i > 0 then i - 1 else 0);
    }
  }

  lemma {:induction false} FailingEntry(data: seq<byte>, es: seq<Entry>) returns (e: Entry)
    requires Parses(data) && forall e :: e in es ==> e in EntriesOf(data)
    requires ExpandEntries(data, es).None?
    ensures e in es && e.tag == NESTED && |e.value| <= VALUE_CAPACITY && Expand(NestedBytes(e)).None?
    decreases |es|
  {
    hide Parses, EntriesOf, NestedBytes, Expand;
    NestedShrinks(data, es[0]);
    if es[0].tag == NESTED && ExpandNested(data, es[0]).None? {
      NotParsed(NestedBytes(es[0]));
      e := es[0];
    } else {
      e := FailingEntry(data, es[1..]);
    }
  }

  lemma NotParsed(data: seq<byte>)
    ensures !Parses(data) ==> Expand(data).None?
  {
  }

  lemma {:induction false} ExpandChain(data: seq<byte>, chain: seq<seq<byte>>, i: nat)
    requires NestingChain(chain) && i < |chain| && Expand(chain[0]).Some?
    ensures Expand(chain[i]).Some?
  {
    hide Parses, EntriesOf, NestedBytes, ExpandEntries;
    if i > 0 {
      ExpandChain(data, chain, i - 1);
      var outer := chain[i - 1];
      assert Nests(outer, chain[i]);
      var e :| e in EntriesOf(outer) && e.tag == NESTED && |e.value| <= VALUE_CAPACITY && chain[i] == NestedBytes(e);
      var k :| 0 <= k < |EntriesOf(outer)| && EntriesOf(outer)[k] == e;
      ExpandedEntry(outer, EntriesOf(outer), k);
    }
  }

  lemma LongerChain(data: seq<byte>, rest: seq<seq<byte>>)
    requires NestingChain(rest) && |rest| > 0 && Nests(data, rest[0])
    ensures NestingChain([data] + rest)
  {
    hide Nests;
    var chain := [data] + rest;
    forall i | 0 < i < |chain|
      ensures Nests(chain[i - 1], chain[i])
    {
      if i > 1 { assert chain[i] == rest[i - 1] && chain[i - 1] == rest[i - 2]; }
    }
  }

  lemma {:induction false} FailingChain(data: seq<byte>) returns (chain: seq<seq<byte>>)
    requires Expand(data).None?
    ensures NestingChain(chain) && |chain| > 0 && chain[0] == data && !Parses(chain[|chain| - 1])
    decreases |data|
  {
    hide Parses, Nests, NestingChain, Expand;
    if !Parses(data) {
      SingleChain(data);
      chain := [data];
    } else {
      var inner := FailingNested(data);
      if Parses(inner) {
        var rest := FailingChain(inner);
        LongerChain(data, rest);
        chain := [data] + rest;
      } else {
        SingleChain(inner);
        LongerChain(data, [inner]);
        chain := [data] + [inner];
      }
    }
  }

  lemma SingleChain(data: seq<byte>)
    ensures NestingChain([data])
  {
  }

  lemma FailingNested(data: seq<byte>) returns (inner: seq<byte>)
    requires Parses(data) && Expand(data).None?
    ensures Nests(data, inner) && Expand(inner).None? && (Parses(inner) ==> |inner| < |data|)
  {
    hide Parses, EntriesOf, NestedBytes, ExpandEntries;
    var e := FailingEntry(data, EntriesOf(data));
    NestedShrinks(data, e);
    inner := NestedBytes(e);
  }

  /** Every chain of nested entries from `data` leads to bytes that are an alias. */
  ghost predicate WellNested(data: seq<byte>) {
    forall chain: seq<seq<byte>> ::
      NestingChain(chain) && |chain| > 0 && chain[0] == data ==> Parses(chain[|chain| - 1])
  }

  /** The expansion goes through exactly when no chain of nested entries leads to bytes that are not an alias. */
  lemma ExpandIff(data: seq<byte>)
    ensures Expand(data).Some? <==> WellNested(data)
  {
    hide Expand, Parses, NestingChain;
    if Expand(data).Some? {
      forall chain: seq<seq<byte>> | NestingChain(chain) && |chain| > 0 && chain[0] == data
        ensures Parses(chain[|chain| - 1])
      {
        ExpandChain(data, chain, |chain| - 1);
        NotParsed(chain[|chain| - 1]);
      }
    } else {
      var chain := FailingChain(data);
    }
  }

  /** An alias whose nested entry holds nothing: it parses, and the expansion does not go through. */
  lemma EmptyNestedEntry()
    ensures Parses(RecordOf(Entry(NESTED, 0, []))) && Expand(RecordOf(Entry(NESTED, 0, []))).None?
  {
    var e := Entry(NESTED, 0, []);
    RecordOfParses(e);
    RecordOfNests(e);
    assert |NestedBytes(e)| == 0;
    assert !Parses(NestedBytes(e));
    hide Parses, Nests, NestedBytes, RecordOf, Expand;
    var chain := [RecordOf(e), NestedBytes(e)];
    assert NestingChain(chain);
    ExpandIff(RecordOf(e));
  }

  /**
    The recursion over an alias object, entry by entry; `data` is the record it was parsed from. Nested entries
    that are not aliases would leave it without one.
   */
  method CopyDictionary(alias: Alias, ghost data: seq<byte>) returns (x: Expansion)
    requires Parses(data) && ParseAlias(data) == Some(AliasValue(alias.header, alias.entries))
    requires WellNested(data)
    ensures Expand(data) == Some(x)
    decreases |data|
  {
    hide Parses, ParseAlias, Expand, ExpandEntries, NestedBytes, WellNested;
    var items: seq<Item> := [];
    ExpandIff(data);
    ParsedWhenExpanded(data);
    ghost var whole := ExpandEntries(data, alias.entries).value;
    for i := 0 to |alias.entries|
      invariant |items| == i && |items| <= |whole| && items == whole[..i]
    {
      var e := alias.entries[i];
      ExpandedEntry(data, alias.entries, i);
      if e.tag == NESTED {
        NestedShrinks(data, e);
        ParsedWhenExpanded(NestedBytes(e));
        ExpandIff(NestedBytes(e));
        var nested := CreateFromData(NestedBytes(e));
        var inner := CopyDictionary(nested, NestedBytes(e));
        items := items + [Nested(e.tag, inner)];
      } else {
        items := items + [Plain(e)];
      }
    }
    assert items == whole;
    x := Dictionary(alias.header, items);
    assert Expand(data).value == x;
  }

  lemma ParsedWhenExpanded(data: seq<byte>)
    requires Expand(data).Some?
    ensures Parses(data) && |data| >= HEADER_SIZE && ParseAlias(data).Some?
    ensures ExpandEntries(data, ParseAlias(data).value.entries).Some?
    ensures Expand(data).value
         == Dictionary(ParseAlias(data).value.header, ExpandEntries(data, ParseAlias(data).value.entries).value)
  {
    hide ParseAlias;
  }
}
