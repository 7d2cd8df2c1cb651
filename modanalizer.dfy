/** The analyzer's probe table and its life cycle: the scan that fills the
    table and arms one kprobe per text symbol, the handler that counts
    hits, and the teardown that unregisters the armed probes.

    Kernel services appear as inputs: find_module as an optional module,
    kmalloc and proc_create as success flags, and register_kprobe as one
    outcome per record, in table order. The kernel's list of registered
    kprobes is the ghost field `registered`, holding table indices. */
module ModAnalizer {
  import opened Indices
  import opened Symtab
  import opened Wrappers
  import Cursor

  /** Error numbers, returned negated as in the kernel. */
  const EINVAL: int := 22
  const ENOMEM: int := 12

  /** struct ma_symbol_data: the probe's address kp.addr (0 stands for
      NULL, which marks a probe that is not armed), the hit counter `calls`,
      the symbol's name (its offset in the target's string table) and size. */
  datatype Record = Record(addr: nat, calls: nat, name: nat, size: nat)

  /** A record as the memset before the scan leaves it. */
  const Zeroed := Record(0, 0, 0, 0)

  /** A record whose kprobe is registered: exit unregisters exactly these. */
  predicate IsArmed(r: Record) {
    r.addr != 0
  }

  /** Whether register_kprobe accepts a probe at `addr`, given the kernel's
      answer `ok`: a probe at a NULL address is always refused. */
  predicate Registers(addr: nat, ok: bool) {
    addr != 0 && ok
  }

  /** The record built for text symbol `sym` when register_kprobe answers `ok`. */
  function Arm(sym: Sym, ok: bool): Record {
    Record(if Registers(sym.value, ok) then sym.value else 0, 0, sym.name, sym.size)
  }

  /** The table the scan builds: one record per text symbol of `symtab`, in
      table order, the j-th armed according to the j-th outcome. */
  function Table(symtab: seq<Sym>, outcomes: seq<bool>): seq<Record>
    requires |outcomes| >= |TextIndices(symtab)|
  {
    var picks := TextIndices(symtab);
    seq(|picks|, j requires 0 <= j < |picks| => Arm(symtab[picks[j]], outcomes[j]))
  }

  /** The indices of the armed records of a table. */
  function ArmedSet(t: seq<Record>): set<nat> {
    set i | 0 <= i < |t| && IsArmed(t[i])
  }

  /** Extending a table prefix by one record adds its index exactly when it is armed. */
  lemma ArmedSetStep(t: seq<Record>, j: nat)
    requires j < |t|
    ensures ArmedSet(t[..j + 1]) == ArmedSet(t[..j]) + (if IsArmed(t[j]) then {j} else {})
  {
  }

  /** Every hit names a record of the table. */
  predicate InTable(t: seq<Record>, hits: seq<nat>) {
    forall k :: 0 <= k < |hits| ==> hits[k] < |t|
  }

  /** ma_pre_handler's effect on the table: one more hit on record `j`. */
  function Bump(t: seq<Record>, j: nat): seq<Record>
    requires j < |t|
  {
    t[j := t[j].(calls := t[j].calls + 1)]
  }

  /** The table after the handler has run for each hit of `hits`, in order. */
  function Replay(t: seq<Record>, hits: seq<nat>): seq<Record>
    requires InTable(t, hits)
    decreases |hits|
  {
    if hits == [] then t else Replay(Bump(t, hits[0]), hits[1..])
  }

  /** The table has one record per text symbol, so as many records as the
      symbol table has text entries. */
  lemma TableCount(symtab: seq<Sym>, outcomes: seq<bool>)
    requires |outcomes| >= |TextIndices(symtab)|
    ensures |Table(symtab, outcomes)| == |set i | 0 <= i < |symtab| && IsText(symtab[i])|
  {
    WhereCount(symtab, IsText);
    assert Positions(symtab, IsText) == set i | 0 <= i < |symtab| && IsText(symtab[i]);
  }

  /** Each text symbol has its record, carrying its name and size and no
      hits, and records keep the order of their symbols in the symbol table. */
  lemma TableFromScan(symtab: seq<Sym>, outcomes: seq<bool>, i: nat)
    requires |outcomes| >= |TextIndices(symtab)|
    requires i < |symtab| && IsText(symtab[i])
    ensures exists j :: (0 <= j < |Table(symtab, outcomes)| && TextIndices(symtab)[j] == i
      && Table(symtab, outcomes)[j].name == symtab[i].name
      && Table(symtab, outcomes)[j].size == symtab[i].size
      && Table(symtab, outcomes)[j].calls == 0)
    ensures forall j, k :: 0 <= j < k < |Table(symtab, outcomes)| ==>
      TextIndices(symtab)[j] < TextIndices(symtab)[k]
  {
    TextIndicesExact(symtab, i);
    var j :| 0 <= j < |TextIndices(symtab)| && TextIndices(symtab)[j] == i;
    assert Table(symtab, outcomes)[j] == Arm(symtab[i], outcomes[j]);
  }

  /** A record whose registration failed is left with a NULL address and no
      hits, and stays in the table; one whose registration succeeded is
      armed at its symbol's address. */
  lemma TableArming(symtab: seq<Sym>, outcomes: seq<bool>, j: nat)
    requires |outcomes| >= |TextIndices(symtab)|
    requires j < |TextIndices(symtab)|
    ensures j < |Table(symtab, outcomes)|
    ensures var sym := symtab[TextIndices(symtab)[j]];
      if Registers(sym.value, outcomes[j])
      then IsArmed(Table(symtab, outcomes)[j]) && Table(symtab, outcomes)[j].addr == sym.value
      else !IsArmed(Table(symtab, outcomes)[j]) && Table(symtab, outcomes)[j].calls == 0
  {
  }

  /** Each hit adds one to its own record and nothing else changes: after a
      run of hits every record has gained exactly its number of hits, so
      counters never decrease and no hit is lost. */
  lemma {:induction false} ReplayCounts(t: seq<Record>, hits: seq<nat>)
    requires InTable(t, hits)
    ensures |Replay(t, hits)| == |t|
    ensures forall k :: 0 <= k < |t| ==>
      Replay(t, hits)[k] == t[k].(calls := t[k].calls + multiset(hits)[k])
    decreases |hits|
  {
    if hits != [] {
      var t' := Bump(t, hits[0]);
      ReplayCounts(t', hits[1..]);
      assert hits == [hits[0]] + hits[1..];
      assert multiset(hits) == multiset{hits[0]} + multiset(hits[1..]);
    }
  }

  /** Hits only on armed records keep every unarmed record at zero hits. */
  lemma ReplayKeepsUnarmedIdle(t: seq<Record>, hits: seq<nat>)
    requires InTable(t, hits) && forall h :: h in hits ==> IsArmed(t[h])
    requires forall k :: 0 <= k < |t| && !IsArmed(t[k]) ==> t[k].calls == 0
    ensures forall k :: 0 <= k < |Replay(t, hits)| && !IsArmed(Replay(t, hits)[k]) ==>
      Replay(t, hits)[k].calls == 0
  {
    ReplayCounts(t, hits);
    forall k | 0 <= k < |t| && !IsArmed(t[k])
      ensures multiset(hits)[k] == 0
    {
      assert k !in hits;
    }
  }

  /** Teardown after any run of hits unregisters exactly the records whose
      registration succeeded at scan time. */
  lemma TeardownMatchesArming(symtab: seq<Sym>, outcomes: seq<bool>, hits: seq<nat>, j: int)
    requires |outcomes| >= |TextIndices(symtab)|
    requires InTable(Table(symtab, outcomes), hits)
    ensures j in Where(Replay(Table(symtab, outcomes), hits), IsArmed) <==>
      0 <= j < |TextIndices(symtab)| &&
      Registers(symtab[TextIndices(symtab)[j]].value, outcomes[j])
  {
    var t := Table(symtab, outcomes);
    ReplayCounts(t, hits);
    WhereMembers(Replay(t, hits), IsArmed, j);
  }

  /** The analyzer's global state: ma_symbols and ma_symbols_count. */
  class Analizer {
    /** ma_symbols: the probe table, null until allocated and once freed. */
    var symbols: array?<Record>
    /** ma_symbols_count: the number of records. */
    var count: nat
    /** The indices of the records whose kprobe the kernel holds registered. */
    ghost var registered: set<nat>

    /** While a table exists it has `count` records, the kernel holds
        exactly the armed ones registered, and an unarmed record has no
        hits; with no table no probe is registered. */
    ghost predicate Valid()
      reads this, symbols
    {
      if symbols == null then registered == {}
      else
        symbols.Length == count &&
        registered == ArmedSet(symbols[..]) &&
        forall i :: 0 <= i < count && !IsArmed(symbols[i]) ==> symbols[i].calls == 0
    }

    /** The state before init: the statics start out NULL and 0. */
    constructor ()
      ensures symbols == null && count == 0 && registered == {}
      ensures Valid()
    {
      symbols := null;
      count := 0;
      registered := {};
    }

    /** The scan of init_modanalizer: count the text symbols, allocate and
        zero the table, then fill record j from the j-th text symbol and
        try to register its kprobe, clearing its address on failure. */
    method Load(m: Module, allocOk: bool, outcomes: seq<bool>) returns (status: int)
      requires symbols == null && registered == {}
      requires |outcomes| >= |TextIndices(m.symtab)|
      modifies this
      ensures count == |TextIndices(m.symtab)|
      ensures !allocOk ==> status == -ENOMEM && symbols == null && registered == {}
      ensures allocOk ==> status == 0 && symbols != null && fresh(symbols) && Valid()
      ensures allocOk ==> symbols[..] == Table(m.symtab, outcomes)
    {
      count := CountText(m.symtab);
      if !allocOk {
        return -ENOMEM;
      }
      var table := new Record[count](_ => Zeroed);
      symbols := table;
      Populate(table, m.symtab, outcomes);
      status := 0;
    }

    /** The second pass of the scan: walk the whole symbol table and, for the
        j-th text symbol, fill record j and try to arm it; a failed
        registration leaves that record unarmed and the walk goes on. */
    method Populate(table: array<Record>, symtab: seq<Sym>, outcomes: seq<bool>)
      requires |outcomes| >= |TextIndices(symtab)|
      requires table.Length == |TextIndices(symtab)|
      requires forall k :: 0 <= k < table.Length ==> table[k] == Zeroed
      requires registered == {}
      modifies table, this`registered
      ensures table[..] == Table(symtab, outcomes)
      ensures registered == ArmedSet(Table(symtab, outcomes))
    {
      ghost var picks := TextIndices(symtab);
      ghost var expected := Table(symtab, outcomes);
      var i, j := 0, 0;
      while i < |symtab|
        invariant 0 <= i <= |symtab|
        invariant table.Length == |picks| == |expected|
        invariant j == |Where(symtab[..i], IsText)|
        invariant Where(symtab[..i], IsText) <= picks
        invariant forall k :: 0 <= k < j ==> table[k] == expected[k]
        invariant forall k :: j <= k < table.Length ==> table[k] == Zeroed
        invariant registered == ArmedSet(expected[..j])
      {
        var sym := symtab[i];
        assert Where(symtab[..i + 1], IsText) <= picks
          && Where(symtab[..i + 1], IsText) == Where(symtab[..i], IsText) + (if IsText(sym) then [i] else [])
        by {
          WhereStep(symtab, IsText, i);
          WherePrefix(symtab, IsText, i + 1, |symtab|);
          assert symtab[..|symtab|] == symtab;
        }
        if IsText(sym) {
          assert expected[j] == Arm(sym, outcomes[j]) by {
            assert picks[j] == i;
          }
          ArmedSetStep(expected, j);
          ArmRecord(table, j, sym, outcomes[j]);
          j := j + 1;
        }
        i := i + 1;
      }
      assert j == |expected| by {
        assert symtab[..i] == symtab;
      }
      assert expected[..j] == expected;
      assert table[..] == expected;
    }

    /** The body of the scan for one text symbol: fill record j (still
        zeroed) from `sym`, then register its kprobe and, if register_kprobe
        answers with an error, reset the record's address to NULL. */
    method ArmRecord(table: array<Record>, j: nat, sym: Sym, ok: bool)
      requires j < table.Length && table[j] == Zeroed
      modifies table, this`registered
      ensures table[j] == Arm(sym, ok)
      ensures forall k :: 0 <= k < table.Length && k != j ==> table[k] == old(table[k])
      ensures registered == old(registered) + (if Registers(sym.value, ok) then {j} else {})
    {
      table[j] := table[j].(addr := sym.value, name := sym.name, size := sym.size);
      if Registers(sym.value, ok) {
        registered := registered + {j};
      } else {
        table[j] := table[j].(addr := 0);
      }
    }

    /** init_modanalizer, as written: a missing target fails with -EINVAL
        before anything changes; a failed allocation fails with -ENOMEM and
        no probe registered; a failed proc_create frees the table and fails
        with -ENOMEM while every armed probe stays registered. */
    method Init(target: Option<Module>, allocOk: bool, outcomes: seq<bool>, procOk: bool)
      returns (status: int)
      requires symbols == null && registered == {}
      requires target.Some? ==> |outcomes| >= |TextIndices(target.value.symtab)|
      modifies this
      ensures target.None? ==> status == -EINVAL && symbols == null && registered == {} && count == old(count)
      ensures target.Some? ==> count == |TextIndices(target.value.symtab)|
      ensures target.Some? && !allocOk ==> status == -ENOMEM && symbols == null && registered == {}
      ensures target.Some? && allocOk && procOk ==>
        status == 0 && symbols != null && fresh(symbols) && Valid() &&
        symbols[..] == Table(target.value.symtab, outcomes)
      ensures target.Some? && allocOk && !procOk ==>
        status == -ENOMEM && symbols == null &&
        registered == ArmedSet(Table(target.value.symtab, outcomes))
    {
      if target.None? {
        return -EINVAL;
      }
      status := Load(target.value, allocOk, outcomes);
      if status != 0 {
        return;
      }
      if !procOk {
        symbols := null;
        return -ENOMEM;
      }
    }

    /** init_modanalizer with the procfs failure rolled back: every armed
        probe is unregistered before the table is freed, so each failure
        leaves no probe registered. */
    method InitWithRollback(target: Option<Module>, allocOk: bool, outcomes: seq<bool>, procOk: bool)
      returns (status: int)
      requires symbols == null && registered == {}
      requires target.Some? ==> |outcomes| >= |TextIndices(target.value.symtab)|
      modifies this
      ensures Valid()
      ensures status != 0 ==> symbols == null && registered == {}
      ensures status == 0 <==> target.Some? && allocOk && procOk
      ensures target.None? ==> status == -EINVAL && count == old(count)
      ensures target.Some? ==> count == |TextIndices(target.value.symtab)|
      ensures target.Some? && !(allocOk && procOk) ==> status == -ENOMEM
      ensures status == 0 ==>
        (symbols != null && fresh(symbols) && symbols[..] == Table(target.value.symtab, outcomes))
    {
      if target.None? {
        return -EINVAL;
      }
      status := Load(target.value, allocOk, outcomes);
      if status != 0 {
        return;
      }
      if !procOk {
        var _ := UnregisterArmed();
        symbols := null;
        return -ENOMEM;
      }
    }

    /** ma_pre_handler: a hit on the registered probe of record j adds one
        to that record's counter and changes nothing else. */
    method PreHandler(j: nat)
      requires Valid() && symbols != null
      requires j in registered
      modifies symbols
      ensures Valid()
      ensures symbols[..] == Bump(old(symbols[..]), j)
    {
      symbols[j] := symbols[j].(calls := symbols[j].calls + 1);
    }

    /** The loop of exit_modanalizer: unregister every record with a
        non-NULL address, scanning all `count` records in order. */
    method UnregisterArmed() returns (unregistered: seq<nat>)
      requires symbols != null && symbols.Length == count
      requires registered == ArmedSet(symbols[..])
      modifies this`registered
      ensures registered == {}
      ensures unregistered == Where(symbols[..], IsArmed)
    {
      unregistered := [];
      var i := 0;
      while i < count
        invariant 0 <= i <= count
        invariant unregistered == Where(symbols[..i], IsArmed)
        invariant registered == set k | i <= k < count && IsArmed(symbols[k])
      {
        WhereStep(symbols[..], IsArmed, i);
        assert symbols[..][..i] == symbols[..i] && symbols[..][..i + 1] == symbols[..i + 1];
        if IsArmed(symbols[i]) {
          registered := registered - {i};
          unregistered := unregistered + [i];
        }
        i := i + 1;
      }
      assert symbols[..i] == symbols[..];
    }

    /** exit_modanalizer: unregister exactly the armed probes, then free the table. */
    method Exit() returns (unregistered: seq<nat>)
      requires Valid() && symbols != null
      modifies this
      ensures symbols == null && registered == {} && Valid()
      ensures count == old(count)
      ensures unregistered == Where(old(symbols[..]), IsArmed)
    {
      unregistered := UnregisterArmed();
      symbols := null;
    }

    /** The records a full read of the report shows, in the order the
        cursor hands them out: every record of the table once, in index order. */
    function Report(): (r: seq<Record>)
      reads this, symbols
      requires symbols != null && symbols.Length == count
      ensures r == symbols[..]
    {
      Cursor.WalkFromStart(count);
      var w := Cursor.Walk(count, 0);
      var t := symbols[..];
      seq(|w|, k requires 0 <= k < |w| => t[w[k]])
    }
  }

  /** With one text symbol whose probe registers, a failing proc_create
      makes init return -ENOMEM with the table freed while that probe stays
      registered with the kernel. */
  lemma ProcFailureLeak()
    ensures ArmedSet(Table([Sym(0, 'T', 0x1000, 16)], [true])) == {0}
  {
    var symtab := [Sym(0, 'T', 0x1000, 16)];
    assert symtab[..0] == [];
    assert TextIndices(symtab) == [0];
    assert Table(symtab, [true])[0] == Record(0x1000, 0, 0, 16);
  }

  /** The leak on the procfs failure path, shown on init itself: with one
      text symbol whose probe registers and a failing proc_create, init
      returns -ENOMEM with the table freed and that probe still registered. */
  method ProcFailureWitness() returns (status: int, a: Analizer)
    ensures status == -ENOMEM && a.symbols == null && a.registered == {0}
  {
    a := new Analizer();
    ProcFailureLeak();
    status := a.Init(Some(Module([Sym(0, 'T', 0x1000, 16)])), true, [true], false);
  }
}
