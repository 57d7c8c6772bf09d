/** Two-level 32-bit page tables (Intel SDM volume 3A, section 4.3) as the kernel lays them
    out, and the proof that they behave as a map from page number to entry. */
module PageTables {
  import opened CowMachine
  import opened Facts

  const PG_PRESENT := 1
  const PG_WRITE := 2
  const PG_USER := 4
  const PG_OWNED := 512
  // The last directory slot maps the directory onto itself.
  const SELF_SLOT := 1023

  /** A directory or table entry, as the kernel reads it. */
  datatype Entry = Entry(frame: Frame, present: bool, write: bool, user: bool, owned: bool)

  const Zero := Entry(0, false, false, false, false)

  type Table = seq<Entry>

  // ---------------------------------------------------------------------------
  // The 32-bit word behind an entry

  function Bit(b: bool, weight: nat): nat { if b then weight else 0 }

  /** address | flags, for a page-aligned address. */
  function Word(e: Entry): nat
  {
    e.frame * PAGE_SIZE + Bit(e.owned, PG_OWNED) + Bit(e.user, PG_USER) + Bit(e.write, PG_WRITE) + Bit(e.present, PG_PRESENT)
  }

  /** (w & flag) == flag, for a one-bit flag. */
  predicate HasFlag(w: nat, flag: nat)
    requires flag > 0
  {
    w / flag % 2 == 1
  }

  function Decode(w: nat): Entry
  {
    Entry(w / PAGE_SIZE, HasFlag(w, PG_PRESENT), HasFlag(w, PG_WRITE), HasFlag(w, PG_USER), HasFlag(w, PG_OWNED))
  }

  /** Reading a stored entry back gives the frame and flags that were stored; the word 0 is
      the absent entry and nothing else is; an entry fits in 32 bits when its frame is below 4 GB. */
  lemma WordRoundTrip(e: Entry)
    ensures Decode(Word(e)) == e
    ensures (Word(e) % 2 == 1 <==> e.present) && (Word(e) / 2 % 2 == 1 <==> e.write)
    ensures (Word(e) / 4 % 2 == 1 <==> e.user) && (Word(e) / 512 % 2 == 1 <==> e.owned)
    ensures Word(e) == 0 <==> e == Zero
    ensures Word(e) / PAGE_SIZE * PAGE_SIZE == e.frame * PAGE_SIZE
    ensures Word(e) < 0x1_0000_0000 <==> e.frame < 0x10_0000
  {
    var o, u, w, p := Bit(e.owned, 1), Bit(e.user, 1), Bit(e.write, 1), Bit(e.present, 1);
    assert Word(e) == e.frame * 4096 + o * 512 + u * 4 + w * 2 + p;
    Quotient(Word(e), PAGE_SIZE, e.frame, o * 512 + u * 4 + w * 2 + p);
    FlagBit(Word(e), PG_OWNED, e.frame * 4, o, u * 4 + w * 2 + p);
    FlagBit(Word(e), PG_USER, e.frame * 512 + o * 64, u, w * 2 + p);
    FlagBit(Word(e), PG_WRITE, e.frame * 1024 + o * 128 + u, w, p);
    FlagBit(Word(e), PG_PRESENT, e.frame * 2048 + o * 256 + u * 2 + w, p, 0);
  }

  /** The words behind a table. */
  function Words(t: Table): seq<nat> { seq(|t|, j requires 0 <= j < |t| => Word(t[j])) }

  function Decoded(ws: seq<nat>): Table { seq(|ws|, j requires 0 <= j < |ws| => Decode(ws[j])) }

  /** Hence tables of entries stand for tables of words: storing a word is storing its entry, and
      reading words back and taking them apart yields the entries. */
  lemma TableAsWords(t: Table, j: nat, e: Entry)
    requires j < |t|
    ensures Decoded(Words(t)) == t
    ensures Decoded(Words(t)[j := Word(e)]) == t[j := e]
    ensures Words(t)[j] == 0 <==> t[j] == Zero
  {
    forall x: Entry ensures Decode(Word(x)) == x && (Word(x) == 0 <==> x == Zero) { WordRoundTrip(x); }
    hide Word, Decode;
  }

  lemma FlagBit(n: nat, flag: nat, hi: nat, b: nat, low: nat)
    requires n == (2 * hi + b) * flag + low && b <= 1 && low < flag
    ensures HasFlag(n, flag) <==> b == 1
  {
    Quotient(n, flag, 2 * hi + b, low);
  }

  // ---------------------------------------------------------------------------
  // Walking the tables

  predicate Walkable(i: int) { USER_SLOT_LO <= i < SELF_SLOT }

  /** What the walk finds for page `v`: the table entry, or the absent entry when the
      directory has no table for it. */
  function Lookup(dir: Table, tables: map<Frame, Table>, v: nat): Entry
  {
    if Slot(v) < |dir| && dir[Slot(v)].present && dir[Slot(v)].frame in tables
       && v % TABLE_ENTRIES < |tables[dir[Slot(v)].frame]|
    then tables[dir[Slot(v)].frame][v % TABLE_ENTRIES]
    else Zero
  }

  /** For the address `a` the walk takes directory entry a / 4 MB and, in the table named there,
      entry a / 4 KB modulo 1024. */
  lemma WalkByAddress(dir: Table, tables: map<Frame, Table>, a: nat)
    requires |dir| == 1024 && a < 0x1_0000_0000
    ensures !dir[a / 0x40_0000].present ==> Lookup(dir, tables, a / 0x1000) == Zero
    ensures var d := dir[a / 0x40_0000];
      d.present && d.frame in tables && |tables[d.frame]| == 1024 ==> Lookup(dir, tables, a / 0x1000) == tables[d.frame][a / 0x1000 % 1024]
  {
    assert a / 0x1000 / 1024 == a / 0x40_0000;
  }

  function ToPte(e: Entry): Pte { Pte(e.frame, e.write, e.user, e.owned) }

  function FirstUserPage(): nat { USER_SLOT_LO * TABLE_ENTRIES }

  function EndOfUserPages(): nat { USER_SLOT_HI * TABLE_ENTRIES }

  lemma UserPageRange(v: nat)
    ensures UserPage(v) <==> FirstUserPage() <= v < EndOfUserPages()
  {
  }

  function PagesOf(dir: Table, tables: map<Frame, Table>): map<nat, Pte>
  {
    map v: nat | FirstUserPage() <= v < EndOfUserPages() && Lookup(dir, tables, v).present
      :: ToPte(Lookup(dir, tables, v))
  }

  function TabsOf(dir: Table): map<nat, Tab>
  {
    map i: nat | USER_SLOT_LO <= i < USER_SLOT_HI && i < |dir| && dir[i].present :: Tab(dir[i].frame, dir[i].owned)
  }

  /** The private part of a space: the map its user slots denote. */
  function SpaceOf(dir: Table, tables: map<Frame, Table>): Space
  {
    Space(PagesOf(dir, tables), TabsOf(dir))
  }

  lemma PageMember(dir: Table, tables: map<Frame, Table>, v: nat)
    ensures v in PagesOf(dir, tables) <==> UserPage(v) && Lookup(dir, tables, v).present
    ensures v in PagesOf(dir, tables) ==> PagesOf(dir, tables)[v] == ToPte(Lookup(dir, tables, v))
  {
    UserPageRange(v);
  }

  predicate EntryWf(e: Entry) { e.present || e == Zero }

  /** Every directory has 1024 slots; every slot the kernel walks is zero or names a full table. */
  ghost predicate DirsWf(dirs: seq<Table>, tables: map<Frame, Table>)
  {
    && (forall s :: 0 <= s < |dirs| ==> |dirs[s]| == TABLE_ENTRIES)
    && (forall s, i {:trigger dirs[s][i]} :: 0 <= s < |dirs| && Walkable(i) ==>
          && EntryWf(dirs[s][i])
          && (dirs[s][i].present ==> dirs[s][i].frame in tables))
    && (forall f :: f in tables ==> |tables[f]| == TABLE_ENTRIES)
    && (forall f, j :: f in tables && 0 <= j < TABLE_ENTRIES ==> EntryWf(tables[f][j]))
  }

  /** Directory `s` has a table in slot `i`. */
  predicate Filled(dirs: seq<Table>, s: int, i: int)
  {
    0 <= s < |dirs| && Walkable(i) && i < |dirs[s]| && dirs[s][i].present
  }

  /** The table behind a user slot is behind no other slot of any directory. */
  ghost predicate TablesUnshared(dirs: seq<Table>)
  {
    forall s, i, s', i' :: Filled(dirs, s, i) && Filled(dirs, s', i') && i < USER_SLOT_HI && (s, i) != (s', i')
      ==> dirs[s][i].frame != dirs[s'][i'].frame
  }

  /** No directory uses `f` as a table. */
  ghost predicate NoTable(dirs: seq<Table>, f: Frame)
  {
    forall s, i :: Filled(dirs, s, i) ==> dirs[s][i].frame != f
  }

  ghost predicate TablesWf(dirs: seq<Table>, tables: map<Frame, Table>)
  {
    DirsWf(dirs, tables) && TablesUnshared(dirs)
  }

  function StoreEntry(tables: map<Frame, Table>, t: Frame, j: nat, e: Entry): map<Frame, Table>
    requires t in tables && j < |tables[t]|
  {
    tables[t := tables[t][j := e]]
  }

  function ZeroTable(): Table { seq(TABLE_ENTRIES, _ => Zero) }

  // ---------------------------------------------------------------------------
  // The tables refine a map

  /** Storing an entry changes the walk for that page of that space and for nothing else. */
  lemma StoreEntryLookup(dirs: seq<Table>, tables: map<Frame, Table>, s: nat, v: nat, e: Entry)
    requires TablesWf(dirs, tables) && s < |dirs| && UserPage(v) && dirs[s][Slot(v)].present && EntryWf(e)
    ensures var tables' := StoreEntry(tables, dirs[s][Slot(v)].frame, v % TABLE_ENTRIES, e);
      && TablesWf(dirs, tables')
      && Lookup(dirs[s], tables', v) == e
      && (forall s': nat, v': nat :: 0 <= s' < |dirs| && Walkable(Slot(v')) && (s', v') != (s, v)
            ==> Lookup(dirs[s'], tables', v') == Lookup(dirs[s'], tables, v'))
  {
    assert Filled(dirs, s, Slot(v));
    var t, j := dirs[s][Slot(v)].frame, v % TABLE_ENTRIES;
    var tables' := StoreEntry(tables, t, j, e);
    forall s': nat, v': nat | 0 <= s' < |dirs| && Walkable(Slot(v')) && (s', v') != (s, v)
      ensures Lookup(dirs[s'], tables', v') == Lookup(dirs[s'], tables, v')
    {
      var d := dirs[s'][Slot(v')];
      if d.present && d.frame == t {
        assert Filled(dirs, s', Slot(v'));
        assert s' == s && Slot(v') == Slot(v);
        assert v' % TABLE_ENTRIES != j;
      }
    }
  }

  /** Adding a zeroed table for an empty slot changes no walk at all. */
  lemma AddTableLookup(dirs: seq<Table>, tables: map<Frame, Table>, s: nat, i: nat, d: Entry)
    requires TablesWf(dirs, tables) && s < |dirs| && USER_SLOT_LO <= i < USER_SLOT_HI
    requires !dirs[s][i].present && d.present
    requires NoTable(dirs, d.frame)
    ensures var dirs', tables' := dirs[s := dirs[s][i := d]], tables[d.frame := ZeroTable()];
      && TablesWf(dirs', tables')
      && (forall s': nat, v': nat :: 0 <= s' < |dirs| && Walkable(Slot(v'))
            ==> Lookup(dirs'[s'], tables', v') == Lookup(dirs[s'], tables, v'))
  {
    var dirs', tables' := dirs[s := dirs[s][i := d]], tables[d.frame := ZeroTable()];
    assert DirsWf(dirs', tables') by {
      assert forall s' :: 0 <= s' < |dirs| && s' != s ==> dirs'[s'] == dirs[s'];
      assert forall i' :: 0 <= i' < TABLE_ENTRIES && i' != i ==> dirs'[s][i'] == dirs[s][i'];
    }
    assert TablesUnshared(dirs') by {
      assert forall s', i' :: Filled(dirs', s', i') && (s', i') != (s, i) ==> Filled(dirs, s', i') && dirs'[s'][i'] == dirs[s'][i'];
    }
    forall s': nat, v': nat | 0 <= s' < |dirs| && Walkable(Slot(v'))
      ensures Lookup(dirs'[s'], tables', v') == Lookup(dirs[s'], tables, v')
    {
      if s' == s && Slot(v') == i {
        assert dirs'[s'][i] == d;
      } else {
        assert dirs'[s'][Slot(v')] == dirs[s'][Slot(v')];
      }
    }
  }

  lemma SamePages(dir: Table, dir': Table, tables: map<Frame, Table>, tables': map<Frame, Table>)
    requires forall v: nat :: UserPage(v) ==> Lookup(dir', tables', v) == Lookup(dir, tables, v)
    ensures PagesOf(dir', tables') == PagesOf(dir, tables)
  {
    forall v: nat
      ensures v in PagesOf(dir', tables') <==> v in PagesOf(dir, tables)
      ensures v in PagesOf(dir, tables) ==> PagesOf(dir', tables')[v] == PagesOf(dir, tables)[v]
    {
      PageMember(dir, tables, v);
      PageMember(dir', tables', v);
    }
  }

  lemma OneEntryChanged(dir: Table, tables: map<Frame, Table>, tables': map<Frame, Table>, v: nat, e: Entry)
    requires UserPage(v) && Lookup(dir, tables', v) == e
    requires forall w: nat :: UserPage(w) && w != v ==> Lookup(dir, tables', w) == Lookup(dir, tables, w)
    ensures PagesOf(dir, tables')
            == (if e.present then PagesOf(dir, tables)[v := ToPte(e)] else PagesOf(dir, tables) - {v})
  {
    forall w: nat
      ensures w == v ==> (w in PagesOf(dir, tables') <==> e.present)
      ensures w == v && e.present ==> PagesOf(dir, tables')[w] == ToPte(e)
      ensures w != v ==> (w in PagesOf(dir, tables') <==> w in PagesOf(dir, tables))
      ensures w != v && w in PagesOf(dir, tables) ==> PagesOf(dir, tables')[w] == PagesOf(dir, tables)[w]
    {
      PageMember(dir, tables, w);
      PageMember(dir, tables', w);
    }
  }

  /** A store into an existing table is a one-entry update of the space's map. */
  lemma StoreEntrySpaces(dirs: seq<Table>, tables: map<Frame, Table>, s: nat, v: nat, e: Entry)
    requires TablesWf(dirs, tables) && s < |dirs| && UserPage(v) && dirs[s][Slot(v)].present && EntryWf(e)
    ensures var tables' := StoreEntry(tables, dirs[s][Slot(v)].frame, v % TABLE_ENTRIES, e);
      && TablesWf(dirs, tables')
      && (forall s' :: 0 <= s' < |dirs| && s' != s ==> SpaceOf(dirs[s'], tables') == SpaceOf(dirs[s'], tables))
      && PagesOf(dirs[s], tables')
         == (if e.present then PagesOf(dirs[s], tables)[v := ToPte(e)] else PagesOf(dirs[s], tables) - {v})
  {
    var tables' := StoreEntry(tables, dirs[s][Slot(v)].frame, v % TABLE_ENTRIES, e);
    StoreEntryLookup(dirs, tables, s, v, e);
    forall s' | 0 <= s' < |dirs| && s' != s ensures SpaceOf(dirs[s'], tables') == SpaceOf(dirs[s'], tables) {
      SamePages(dirs[s'], dirs[s'], tables, tables');
    }
    OneEntryChanged(dirs[s], tables, tables', v, e);
  }

  /** Adding a zeroed table only records the table. */
  lemma AddTableSpaces(dirs: seq<Table>, tables: map<Frame, Table>, s: nat, i: nat, d: Entry)
    requires TablesWf(dirs, tables) && s < |dirs| && USER_SLOT_LO <= i < USER_SLOT_HI
    requires !dirs[s][i].present && d.present
    requires NoTable(dirs, d.frame)
    ensures var dirs', tables' := dirs[s := dirs[s][i := d]], tables[d.frame := ZeroTable()];
      && TablesWf(dirs', tables')
      && (forall s' :: 0 <= s' < |dirs| && s' != s ==> SpaceOf(dirs'[s'], tables') == SpaceOf(dirs[s'], tables))
      && SpaceOf(dirs'[s], tables') == Space(PagesOf(dirs[s], tables), TabsOf(dirs[s])[i := Tab(d.frame, d.owned)])
  {
    var dirs', tables' := dirs[s := dirs[s][i := d]], tables[d.frame := ZeroTable()];
    AddTableLookup(dirs, tables, s, i, d);
    forall s': nat | s' < |dirs| ensures PagesOf(dirs'[s'], tables') == PagesOf(dirs[s'], tables) {
      SamePages(dirs[s'], dirs'[s'], tables, tables');
    }
    assert TabsOf(dirs'[s]) == TabsOf(dirs[s])[i := Tab(d.frame, d.owned)];
  }

  /** The pages of a space that are not under slot `i`. */
  function OutsideSlot(pages: map<nat, Pte>, i: nat): map<nat, Pte>
  {
    map v | v in pages && Slot(v) != i :: pages[v]
  }

  /** Dropping a directory entry drops its table and every page under it. */
  lemma DropTableSpaces(dirs: seq<Table>, tables: map<Frame, Table>, s: nat, i: nat)
    requires TablesWf(dirs, tables) && s < |dirs| && USER_SLOT_LO <= i < USER_SLOT_HI
    ensures var dirs' := dirs[s := dirs[s][i := Zero]];
      && TablesWf(dirs', tables)
      && (forall s' :: 0 <= s' < |dirs| && s' != s ==> dirs'[s'] == dirs[s'])
      && SpaceOf(dirs'[s], tables) == Space(OutsideSlot(PagesOf(dirs[s], tables), i), TabsOf(dirs[s]) - {i})
  {
    var dirs' := dirs[s := dirs[s][i := Zero]];
    DropSlotPages(dirs[s], tables, i);
    assert TabsOf(dirs'[s]) == TabsOf(dirs[s]) - {i};
    hide PagesOf, TabsOf, OutsideSlot, Slot;
    assert forall s', i' :: Filled(dirs', s', i') ==> Filled(dirs, s', i') && dirs'[s'][i'] == dirs[s'][i'];
    assert TablesUnshared(dirs');
  }

  lemma DropSlotPages(dir: Table, tables: map<Frame, Table>, i: nat)
    requires i < |dir|
    ensures PagesOf(dir[i := Zero], tables) == OutsideSlot(PagesOf(dir, tables), i)
  {
    var dir' := dir[i := Zero];
    forall v: nat
      ensures v in PagesOf(dir', tables) <==> v in PagesOf(dir, tables) && Slot(v) != i
      ensures v in PagesOf(dir', tables) ==> PagesOf(dir', tables)[v] == PagesOf(dir, tables)[v]
    {
      PageMember(dir, tables, v);
      PageMember(dir', tables, v);
    }
  }
}
