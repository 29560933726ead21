/**
 * The chat tree seen through its key codec.
 *
 * `View` turns the byte-level rows into a map from typed keys. Every write,
 * prefix delete and lookup of the store is the same operation on the view,
 * so the rest of the development reasons about typed keys only.
 */
module ChatStore {
  import opened Bytes
  import opened Store
  import opened ChatKeys

  type Typed = map<ChatKey, bytes>

  ghost function View(rows: Rows): (typed: Typed) {
    DecodableKeysDiffer();
    map s | s in rows && Decode(s).Some? :: Decode(s).value := rows[s]
  }

  lemma DecodableKeysDiffer()
    ensures forall s, t | Decode(s).Some? && Decode(t).Some? && Decode(s) == Decode(t) :: s == t
  {
    forall s, t | Decode(s).Some? && Decode(t).Some? && Decode(s) == Decode(t)
      ensures s == t
    {
      EncodeDecode(s);
      EncodeDecode(t);
    }
  }

  /** Under the prefix only rows of the id-rooted families are stored. */
  ghost predicate Keyed(rows: Rows, prefix: bytes) {
    forall s | s in rows && prefix <= s :: Decode(s).Some?
  }

  /** A typed lookup is a lookup under the built key. */
  lemma ViewLookup(rows: Rows, k: ChatKey)
    ensures k in View(rows) <==> Encode(k) in rows
    ensures k in View(rows) ==> View(rows)[k] == rows[Encode(k)]
  {
    DecodeEncode(k);
    if k in View(rows) {
      var s :| s in rows && Decode(s).Some? && Decode(s).value == k;
      EncodeDecode(s);
    }
    if Encode(k) in rows {
      var s := Encode(k);
      DecodableKeysDiffer();
      assert View(rows)[Decode(s).value] == rows[s];
    }
  }

  /** Writing one built key changes the typed store at that key only. */
  lemma ViewInsert(rows: Rows, k: ChatKey, value: bytes)
    ensures View(rows[Encode(k) := value]) == View(rows)[k := value]
  {
    var after := rows[Encode(k) := value];
    forall j: ChatKey
      ensures j in View(after) <==> j in View(rows)[k := value]
      ensures j in View(after) ==> View(after)[j] == View(rows)[k := value][j]
    {
      ViewLookup(rows, j);
      ViewLookup(after, j);
      EncodeInjective(j, k);
    }
  }

  lemma ViewRemove(rows: Rows, k: ChatKey)
    ensures View(rows - {Encode(k)}) == View(rows) - {k}
  {
    var after := rows - {Encode(k)};
    forall j: ChatKey
      ensures j in View(after) <==> j in View(rows) - {k}
      ensures j in View(after) ==> View(after)[j] == View(rows)[j]
    {
      ViewLookup(rows, j);
      ViewLookup(after, j);
      EncodeInjective(j, k);
    }
  }

  ghost function DropChannel(typed: Typed, g: u64, c: u64): Typed {
    map k | k in typed && !k.InChannel(g, c) :: typed[k]
  }

  ghost function DropRoot(typed: Typed, g: u64): Typed {
    map k | k in typed && k.g != g :: typed[k]
  }

  /** Deleting under a channel's key removes that channel's rows and nothing else. */
  lemma ViewDropChannel(rows: Rows, g: u64, c: u64)
    ensures View(WithoutPrefix(rows, ChanKey(g, c))) == DropChannel(View(rows), g, c)
  {
    var after := WithoutPrefix(rows, ChanKey(g, c));
    forall j: ChatKey
      ensures j in View(after) <==> j in DropChannel(View(rows), g, c)
      ensures j in View(after) ==> View(after)[j] == View(rows)[j]
    {
      ViewLookup(rows, j);
      ViewLookup(after, j);
      ChanKeyCovers(g, c, j);
    }
  }

  /** Deleting under an id removes every row rooted at it. */
  lemma ViewDropRoot(rows: Rows, g: u64)
    ensures View(WithoutPrefix(rows, Id(g))) == DropRoot(View(rows), g)
  {
    var after := WithoutPrefix(rows, Id(g));
    forall j: ChatKey
      ensures j in View(after) <==> j in DropRoot(View(rows), g)
      ensures j in View(after) ==> View(after)[j] == View(rows)[j]
    {
      ViewLookup(rows, j);
      ViewLookup(after, j);
      RootCovers(g, j);
    }
  }

  /** The rows of a typed store: one built key for each typed one. */
  ghost function RowsOf(typed: Typed): Rows {
    BuiltKeysDiffer();
    map k | k in typed :: Encode(k) := typed[k]
  }

  lemma BuiltKeysDiffer()
    ensures forall j, k :: Encode(j) == Encode(k) ==> j == k
  {
    forall j, k | Encode(j) == Encode(k)
      ensures j == k
    {
      EncodeInjective(j, k);
    }
  }

  /** Every typed store is the view of its rows, and those are built keys only. */
  lemma ViewOfRows(typed: Typed)
    ensures View(RowsOf(typed)) == typed
    ensures forall prefix :: Keyed(RowsOf(typed), prefix)
  {
    hide View, Keyed;
    forall k
      ensures k in View(RowsOf(typed)) <==> k in typed
      ensures k in typed ==> View(RowsOf(typed))[k] == typed[k]
    {
      ViewLookup(RowsOf(typed), k);
      RowOf(typed, k);
    }
    RowsAreKeyed(typed);
  }

  lemma RowOf(typed: Typed, k: ChatKey)
    ensures Encode(k) in RowsOf(typed) <==> k in typed
    ensures k in typed ==> RowsOf(typed)[Encode(k)] == typed[k]
  {
    BuiltKeysDiffer();
  }

  lemma RowsAreKeyed(typed: Typed)
    ensures forall prefix :: Keyed(RowsOf(typed), prefix)
  {
    forall s | s in RowsOf(typed)
      ensures Decode(s).Some?
    {
      var k :| k in typed && Encode(k) == s;
      DecodeEncode(k);
    }
  }

  lemma EmptyView()
    ensures View(map[]) == map[]
  {
  }

  lemma KeyedPreserved(rows: Rows, k: ChatKey, value: bytes)
    ensures forall prefix | Keyed(rows, prefix) :: Keyed(rows[Encode(k) := value], prefix)
  {
    DecodeEncode(k);
  }
}
