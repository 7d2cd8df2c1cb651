# modanalizer, modelled in Dafny

modanalizer is a Linux kernel module that counts calls to the functions of
another loaded module (the target). At load time it finds the target and
scans its symbol table twice. The first pass counts the text symbols, the
entries whose type letter is `t` (local) or `T` (global). The second pass
fills one `ma_symbol_data` record per text symbol, in table order, and
registers a kprobe at the symbol's address. If a registration fails, that
record's address is reset to NULL. The record stays in the table, and the
scan goes on with the next one. Each hit on a probe runs `ma_pre_handler`,
which adds one to that record's `calls`. `/proc/modanalizer` lists the
records through a seq_file cursor (`ma_seq_start`, `ma_seq_next`). At
unload, every record with a non-NULL address is unregistered, and then the
table is freed.

The model has five modules:

- `Wrappers`: the `Option` type.
- `Indices`: `Where(s, p)`, the positions of `s` whose element satisfies
  `p`, in order. It has lemmas for exact membership, prefixes and
  cardinality. The scan selects text symbols with it, and the teardown
  selects armed records with it.
- `Symtab`: symbol-table entries (`Elf64_Sym`: `st_name`, `st_info`,
  `st_value`, `st_size`) and the counting pass.
- `Cursor`: `ma_seq_start` and `ma_seq_next` as index functions over the
  record count. `Walk` is the sequence of records a reader is handed.
- `ModAnalizer`: the record datatype and the class `Analizer`.
  - The class holds `ma_symbols` as an `array?<Record>` and
    `ma_symbols_count` as `count`.
  - The ghost field `registered` stands for the kernel's list of registered
    kprobes, as a set of table indices.
  - The methods are init (split into `Load`, `Populate` and `ArmRecord`,
    following the code's blocks), the handler and exit.
  - Beside the class are the specification functions `Table` (the table the
    scan builds) and `Replay` (the table after a run of hits), with lemmas
    about them.

Kernel services are inputs to the model:

- `find_module` is an `Option<Module>`.
- `kmalloc` and `proc_create` are success flags.
- `register_kprobe` answers from a sequence of outcomes, one per record in
  table order. A probe at a NULL address is always refused. This is the
  kernel's own rule for a kprobe without an address or a symbol name, and
  it is why a NULL address can serve as the "not armed" mark.

A NULL pointer is the address 0. A freed table is a `null` array.

Points where the code is not what a reader might expect:

- "Armed" is not a separate flag. It is `kp.addr != NULL`.
- Names are not copied. A record keeps `strtab + st_name`, modelled as the
  offset `st_name`.
- Teardown does not mark records unarmed. It does not guard against a second
  teardown either: the kernel runs the exit function once.
- A failed initialisation is not always clean:
  - After a failed allocation, `ma_symbols_count` keeps the count.
  - A failed `proc_create` leaves the probes registered (see Findings).

## Model

| member | source | states |
|---|---|---|
| `Symtab.CountText` | modanalizer.c:128-134 | The first pass returns the number of symbol-table entries whose type letter is `t` or `T`. That is the length of the text-index selection and the size of the set of qualifying positions. |
| `Symtab.TextIndicesExact` | modanalizer.c:150-155 | A position is selected by the scan exactly when it is in the table and its entry is a text symbol. Every other entry is skipped. |
| `ModAnalizer.TableCount` | modanalizer.c:129-139 | The table the scan builds has exactly as many records as the symbol table has text entries. That is the count the array is allocated with. |
| `ModAnalizer.TableFromScan` | modanalizer.c:150-171 | Every text symbol gets a record carrying its name offset, its size and zero calls. Records follow their symbols' order in the symbol table. |
| `ModAnalizer.TableArming` | modanalizer.c:158-170 | Record j is armed at its symbol's address when registration succeeds. When registration fails, record j is unarmed with zero calls and still in the table. |
| `ModAnalizer.Analizer.constructor` | modanalizer.c:51-52 | The statics start as no table, count 0 and no probes registered. |
| `ModAnalizer.Analizer.ArmRecord` | modanalizer.c:158-170 | Fills record j from its symbol and registers its probe. On failure it resets the address to NULL. No other record changes. The probe joins the kernel's registered set exactly when registration succeeds. |
| `ModAnalizer.Analizer.Populate` | modanalizer.c:150-172 | The second pass leaves the zeroed array equal to `Table(symtab, outcomes)`. The registered probes are exactly the armed records. |
| `ModAnalizer.Analizer.Load` | modanalizer.c:128-172 | The count is set to the number of text symbols. A failed allocation returns -ENOMEM with no table and nothing registered. Otherwise the fresh array equals `Table` and the state invariant `Valid` holds. |
| `ModAnalizer.Analizer.Init` | modanalizer.c:112-181 | A missing target returns -EINVAL with nothing changed. A failed allocation returns -ENOMEM with nothing registered. Success returns 0 with the built table. A failed proc_create returns -ENOMEM with the table freed and every armed probe still registered. |
| `ModAnalizer.Analizer.InitWithRollback` | modanalizer.c:174-178 | Init with the procfs failure rolled back: 0 exactly when the target exists and both allocations succeed. Every failure leaves no table and no probe registered. |
| `ModAnalizer.Analizer.PreHandler` | modanalizer.c:103-109 | A hit on a registered probe adds one to that record's `calls` and changes nothing else (`Bump`). It keeps the invariant that unarmed records have zero calls. |
| `ModAnalizer.ReplayCounts` | modanalizer.c:103-108 | After any run of hits, each record has gained exactly its number of hits, and all other fields are unchanged. Counters never decrease and no hit is lost. |
| `ModAnalizer.ReplayKeepsUnarmedIdle` | modanalizer.c:165-170 | When hits fall only on armed records, a record whose registration failed stays at zero calls. |
| `ModAnalizer.Analizer.UnregisterArmed` | modanalizer.c:188-190 | The exit loop scans all `count` records. It unregisters exactly the records with a non-NULL address, in index order, and leaves none registered. |
| `ModAnalizer.Analizer.Exit` | modanalizer.c:183-193 | Teardown unregisters exactly the armed records of the table, leaves no probe registered and frees the table. It leaves `ma_symbols_count` unchanged. |
| `ModAnalizer.TeardownMatchesArming` | modanalizer.c:188-190 | After any run of hits, teardown selects exactly the records whose registration succeeded during the scan. |
| `Cursor.Start` | modanalizer.c:55-59 | `ma_seq_start(pos)` yields record `pos` if and only if `pos < count`. Otherwise it yields NULL. |
| `Cursor.Next` | modanalizer.c:61-65 | `ma_seq_next` yields record `pos + 1` and advances the position if and only if `pos + 1 < count`. Otherwise it yields NULL and leaves the position unchanged. |
| `Cursor.FollowVisits` | modanalizer.c:61-65 | Repeated `next` after record `pos` hands out `pos + 1 .. count - 1`, in order, each once. |
| `Cursor.WalkVisits` | modanalizer.c:55-65 | A read resumed at `pos` is handed records `pos .. count - 1`, each exactly once, in order. It is handed nothing when `pos >= count`. |
| `Cursor.WalkFromStart` | modanalizer.c:55-65 | A read from position 0 visits `0 .. count - 1`, each exactly once, in order. It visits nothing when the count is 0. |
| `ModAnalizer.Analizer.Report` | modanalizer.c:82-87 | The records a full read lists, in cursor order, are exactly the table, every record once, in index order. |
| `ModAnalizer.ProcFailureLeak` | modanalizer.c:174-178 | Concrete input for which the as-written procfs failure path leaves a probe registered after freeing the table. |
| `ModAnalizer.ProcFailureWitness` | modanalizer.c:174-178 | Running init on that input with `proc_create` failing returns -ENOMEM, frees the table and leaves probe 0 registered. |

## Findings

| source | as written | input that shows it | evidently intended | confidence | as-written member | corrected member |
|---|---|---|---|---|---|---|
| modanalizer.c:174-178 | When `proc_create` fails, the table is freed and init returns -ENOMEM. Every kprobe armed by the scan is still registered, but its `struct kprobe` lies inside the freed table. | Target with one symbol `Sym(0, 'T', 0x1000, 16)`, `register_kprobe` succeeds, `proc_create` fails. `Init` then ends with `registered == {0}` and no table. | Unregister every armed probe before `kfree`, so that a failed init leaves nothing registered. | high (not executed) | `ModAnalizer.Analizer.Init`, `ModAnalizer.ProcFailureLeak`, `ModAnalizer.ProcFailureWitness` | `ModAnalizer.Analizer.InitWithRollback` |

## Left out

- `find_module` and the `module_mutex` locking around it are a foreign
  lookup. They become the optional `target` input. The target's name
  parameter (`module_param`) is not modelled. Neither is the module's own
  name, which the code only prints.
- The workings of `register_kprobe` and `unregister_kprobe` are foreign
  calls. A registration's success is an input outcome. Registration is
  tracked only as the ghost set `registered`. The handler's return value
  is not modelled either: `ma_pre_handler` returns 0 (line 108), which lets
  the kprobe core resume the probed instruction unchanged, and
  `PreHandler` returns nothing.
- The scan assumes the target's symbol table does not change between or
  during the two passes: `Load` hands the same table to the counting pass
  and to the filling pass. The code holds neither `module_mutex` nor a
  reference to the module during the scan (lines 119-172, and the comment
  at line 149). If the table grew between the passes, the filling pass
  could write past the end of the array, and the model does not capture
  that.
- The assignment of `ma_pre_handler` as every probe's `pre_handler`
  (line 159) is not a separate step. `PreHandler` is the only writer of
  `calls`, and the kernel calls it only for registered probes.
- The `container_of` lookup from the kprobe to its record is replaced by the
  record's index.
- `ModAnalizer.Analizer.PreHandler`: each hit is one sequential step. The
  atomicity of `atomic_long_inc`/`atomic_long_read` and concurrent hits are
  not modelled, and neither is the wrap-around of the signed 64-bit
  `atomic_long_t` after 2^63 hits (`calls` is unbounded).
- Integer widths are not modelled: `ma_symbols_count` and the loop indices
  are `unsigned int`, and `st_value` and `st_size` are 64-bit. No overflow
  is reachable, because the count never exceeds the 32-bit `num_symtab`.
- `Cursor.Start` and `Cursor.Next` take a `nat` position. The seq_file core
  never passes a negative `loff_t`, so that case is not modelled.
- The procfs and seq_file plumbing is not modelled: `ma_open`,
  `ma_file_ops`, `ma_seq_stop`, `remove_proc_entry` and the `seq_read` loop
  that drives the cursor. `proc_create` is only a success flag. `Walk` is
  the sequence of records that loop is handed between one start and the
  NULL that ends it.
- The text rendering of `ma_seq_show` is not modelled: the `%ld\t%p\t%llu\t%s`
  format, pointer printing and the name string. `Report` gives the records a
  read lists, not their text.
- Symbol names are the offset of the name in the target's string table.
  The string table's characters are not modelled.
- `kfree` is modelled as the table becoming `null`. The dangling pointer
  left in `ma_symbols` cannot be expressed.
- `printk` diagnostics and the `MODULE_*` declarations are not modelled.
