/**
The wire layout computed twice: by the generator (contract/gen.py) from the declarations, and by the
verifier (contract/verify_layout.py) from the emitted C header. Everything is packed, so a field's
offset is the sum of the widths before it. None stands for the exception either side raises.
*/
module Layout {
  import opened Basics

  // ---------------------------------------------------------------- the contract and its layout

  datatype Scalar = U8 | U16 | U32 | U64 | I16 | I32 {
    function Bytes(): nat {
      match this
      case U8 => 1
      case U16 => 2
      case U32 => 4
      case U64 => 8
      case I16 => 2
      case I32 => 4
    }

    function CName(): string {
      match this
      case U8 => "__u8"
      case U16 => "__u16"
      case U32 => "__u32"
      case U64 => "__u64"
      case I16 => "__s16"
      case I32 => "__s32"
    }
  }

  /** A count of 0 is a field without an array suffix; Chars is str[N] or u8[N]. */
  datatype FType =
    | Int(scalar: Scalar, count: nat)
    | Chars(count: nat)
    | Alias(ref: string, count: nat)
    | Struct(ref: string, count: nat)

  datatype Field = Field(name: string, ftype: FType) {
    predicate IsTail() { name == "tail" }
  }

  datatype Decl = Decl(message: bool, fields: seq<Field>)

  datatype Contract = Contract(aliases: map<string, nat>, decls: map<string, Decl>)

  const HEADER := "MsgHdr"

  datatype Slot = Slot(name: string, offset: nat, size: nat)
  datatype Plan = Plan(size: nat, slots: seq<Slot>)

  function Mult(count: nat): nat { if count != 0 then count else 1 }

  lemma StackGrows(all: set<string>, stack: set<string>, name: string)
    requires name in all && name !in stack
    ensures |all - (stack + {name})| < |all - stack|
  {
    assert all - stack == (all - (stack + {name})) + {name};
  }

  /** _layout: `stack` holds the declarations being laid out; meeting one again is an error. */
  function Gen(c: Contract, name: string, stack: set<string>): Option<Plan>
    decreases |c.decls.Keys - stack|, 0
  {
    if name in stack || name !in c.decls then None
    else
      StackGrows(c.decls.Keys, stack, name);
      var d, inner := c.decls[name], stack + {name};
      match if d.message then Gen(c, HEADER, inner) else Some(Plan(0, []))
      case None => None
      case Some(hdr) => Walk(c, d.fields, hdr.size, inner)
  }

  /** The loop of _layout over the fields left, at the offset reached. */
  function Walk(c: Contract, fields: seq<Field>, offset: nat, stack: set<string>): Option<Plan>
    decreases |c.decls.Keys - stack|, 2 + |fields|
  {
    if fields == [] then Some(Plan(offset, []))
    else
      match FieldSize(c, fields[0].ftype, stack)
      case None => None
      case Some(n) => Before(Slot(fields[0].name, offset, n), Walk(c, fields[1..], offset + n, stack))
  }

  function Before(s: Slot, rest: Option<Plan>): Option<Plan> {
    if rest.None? then None else Some(Plan(rest.value.size, [s] + rest.value.slots))
  }

  function FieldSize(c: Contract, t: FType, stack: set<string>): Option<nat>
    decreases |c.decls.Keys - stack|, 1
  {
    match t
    case Int(s, n) => Some(s.Bytes() * Mult(n))
    case Chars(n) => Some(n)
    case Alias(ref, n) => if ref in c.aliases then Some(c.aliases[ref] * Mult(n)) else None
    case Struct(ref, n) =>
      match Gen(c, ref, stack)
      case None => None
      case Some(p) => Some(p.size * Mult(n))
  }

  /** gen_wire_size: without the one tail element _layout counts. */
  function WireSize(c: Contract, name: string): Option<int> {
    match Gen(c, name, {})
    case None => None
    case Some(p) =>
      var tails := Tails(c.decls[name].fields);
      if tails == [] then Some(p.size)
      else
        match FieldSize(c, tails[0].ftype, {})
        case None => None
        case Some(elem) => Some(p.size - elem)
  }

  function Tails(fields: seq<Field>): seq<Field> {
    if fields == [] then [] else (if fields[0].IsTail() then [fields[0]] else []) + Tails(fields[1..])
  }

  // ---------------------------------------------------------------- the header and the verifier's pure meaning

  datatype Token = StructToken(name: string) | NameToken(name: string)
  datatype CField = CField(name: string, token: Token, count: nat)

  /** The parsed header: struct fields, and typedefs as (base, array length). */
  datatype Header = Header(structs: map<string, seq<CField>>, typedefs: map<string, (string, nat)>) {
    predicate Plain() { forall t :: t in typedefs ==> typedefs[t].0 !in typedefs }
  }

  const C_SCALARS: map<string, nat> :=
    map["__u8" := 1, "__s8" := 1, "__u16" := 2, "__s16" := 2, "__u32" := 4, "__s32" := 4, "__u64" := 8, "__s64" := 8,
        "__le16" := 2, "__le32" := 4, "__le64" := 8, "char" := 1, "__u8_pad" := 1]

  function Times(count: nat): nat { if count > 1 then count else 1 }

  function Scaled(one: Option<nat>, count: nat): Option<nat> {
    if one.None? then None else Some(one.value * Times(count))
  }

  function ScalarWidth(name: string): Option<nat> { if name in C_SCALARS then Some(C_SCALARS[name]) else None }

  /** The size and the offsets in field order. */
  datatype CPlan = CPlan(size: nat, offsets: seq<(string, nat)>)

  /** `width` without the memo. */
  function CWidth(h: Header, token: Token, count: nat, stack: set<string>): Option<nat>
    requires h.Plain()
    decreases |h.structs.Keys - stack|, 0
  {
    match token
    case StructToken(ref) =>
      if ref in stack || ref !in h.structs then None
      else
        StackGrows(h.structs.Keys, stack, ref);
        var p := CWalk(h, h.structs[ref], 0, stack + {ref});
        Scaled(if p.Some? then Some(p.value.size) else None, count)
    case NameToken(base) =>
      if base in h.typedefs then Scaled(Scaled(ScalarWidth(h.typedefs[base].0), h.typedefs[base].1), count)
      else Scaled(ScalarWidth(base), count)
  }

  /** The loop of `layout_of` without the memo. */
  function CWalk(h: Header, fields: seq<CField>, offset: nat, stack: set<string>): Option<CPlan>
    requires h.Plain()
    decreases |h.structs.Keys - stack|, 1 + |fields|
  {
    if fields == [] then Some(CPlan(offset, []))
    else
      match CWidth(h, fields[0].token, fields[0].count, stack)
      case None => None
      case Some(w) =>
        match CWalk(h, fields[1..], offset + w, stack)
        case None => None
        case Some(rest) => Some(CPlan(rest.size, [(fields[0].name, offset)] + rest.offsets))
  }

  /** One struct, from scratch. */
  function CLayout(h: Header, name: string): Option<CPlan>
    requires h.Plain() && name in h.structs
  {
    CWalk(h, h.structs[name], 0, {name})
  }

  // ---------------------------------------------------------------- what the generator emits

  function CType(t: FType, snake: string -> string): (Token, nat) {
    match t
    case Int(s, n) => (NameToken(s.CName()), n)
    case Chars(n) => (NameToken("__u8"), n)
    case Alias(ref, n) => (NameToken(snake(ref)), n)
    case Struct(ref, n) => (StructToken(CName(snake, ref)), n)
  }

  /** _emit_c_fields with the tail skipped. */
  function EmitFields(fields: seq<Field>, snake: string -> string): seq<CField> {
    if fields == [] then []
    else
      var t := CType(fields[0].ftype, snake);
      (if fields[0].IsTail() then [] else [CField(fields[0].name, t.0, t.1)]) + EmitFields(fields[1..], snake)
  }

  /** A message starts with the embedded header. */
  function EmitDecl(d: Decl, snake: string -> string): seq<CField> {
    (if d.message then [CField("hdr", StructToken("fw_msg_hdr"), 0)] else []) + EmitFields(d.fields, snake)
  }

  function CName(snake: string -> string, name: string): string { "fw_" + snake(name) }

  /** `h` is the parsed header of `c`. */
  ghost predicate Emitted(c: Contract, h: Header, snake: string -> string) {
    && (forall n :: n in c.decls ==> CName(snake, n) in h.structs
                                     && h.structs[CName(snake, n)] == EmitDecl(c.decls[n], snake))
    && (forall a :: a in c.aliases ==> snake(a) in h.typedefs && h.typedefs[snake(a)] == ("__u8", c.aliases[a]))
    && (forall t :: t in h.typedefs ==> exists a :: a in c.aliases && t == snake(a))
  }

  // ---------------------------------------------------------------- the generator alone

  /** Everything a declaration refers to exists and ranks below it: no cycles. */
  ghost predicate Ranked(c: Contract, rank: string -> nat) {
    forall n :: n in c.decls ==>
      && (c.decls[n].message ==> HEADER in c.decls && rank(HEADER) < rank(n))
      && forall i :: 0 <= i < |c.decls[n].fields| ==> Below(c, c.decls[n].fields[i].ftype, rank, rank(n))
  }

  predicate Below(c: Contract, t: FType, rank: string -> nat, top: nat) {
    match t
    case Alias(ref, _) => ref in c.aliases
    case Struct(ref, _) => ref in c.decls && rank(ref) < top
    case _ => true
  }

  /** An acyclic contract has a layout for every declaration. */
  lemma {:induction false} AcyclicLaysOut(c: Contract, rank: string -> nat, name: string, stack: set<string>)
    requires Ranked(c, rank) && name in c.decls && forall x :: x in stack ==> rank(x) > rank(name)
    ensures Gen(c, name, stack).Some?
    decreases rank(name), 0
  {
    var d, inner := c.decls[name], stack + {name};
    if d.message { AcyclicLaysOut(c, rank, HEADER, inner); }
    var start := if d.message then Gen(c, HEADER, inner).value.size else 0;
    AcyclicWalks(c, rank, d.fields, start, inner, rank(name));
  }

  lemma {:induction false} AcyclicWalks(c: Contract, rank: string -> nat, fields: seq<Field>, offset: nat,
                                        stack: set<string>, top: nat)
    requires Ranked(c, rank) && forall i :: 0 <= i < |fields| ==> Below(c, fields[i].ftype, rank, top)
    requires forall x :: x in stack ==> rank(x) >= top
    ensures Walk(c, fields, offset, stack).Some?
    decreases top, 0, |fields|
  {
    if fields != [] {
      match fields[0].ftype {
        case Struct(ref, _) => AcyclicLaysOut(c, rank, ref, stack);
        case _ =>
      }
      AcyclicWalks(c, rank, fields[1..], offset + FieldSize(c, fields[0].ftype, stack).value, stack, top);
    }
  }

  /** `a` uses `b`: as a field's struct type, or as the header of a message. */
  predicate Uses(c: Contract, a: string, b: string) {
    a in c.decls && ((c.decls[a].message && b == HEADER)
                     || exists i :: 0 <= i < |c.decls[a].fields| && c.decls[a].fields[i].ftype.Struct?
                                    && c.decls[a].fields[i].ftype.ref == b)
  }

  lemma {:induction false} WalkNeeds(c: Contract, fields: seq<Field>, offset: nat, stack: set<string>, i: nat)
    requires i < |fields| && fields[i].ftype.Struct? && Walk(c, fields, offset, stack).Some?
    ensures Gen(c, fields[i].ftype.ref, stack).Some?
    decreases |fields|
  {
    if i > 0 { WalkNeeds(c, fields[1..], offset + FieldSize(c, fields[0].ftype, stack).value, stack, i - 1); }
  }

  lemma GenNeeds(c: Contract, a: string, b: string, stack: set<string>)
    requires Uses(c, a, b) && Gen(c, a, stack).Some?
    ensures Gen(c, b, stack + {a}).Some?
  {
    var d, inner := c.decls[a], stack + {a};
    if !(d.message && b == HEADER) {
      var i :| 0 <= i < |d.fields| && d.fields[i].ftype.Struct? && d.fields[i].ftype.ref == b;
      WalkNeeds(c, d.fields, if d.message then Gen(c, HEADER, inner).value.size else 0, inner, i);
    }
  }

  /** A cycle is always reported: no declaration from which a cycle can be followed has a layout. */
  lemma {:induction false} CycleIsError(c: Contract, path: seq<string>, stack: set<string>)
    requires |path| > 1 && forall i :: 0 <= i < |path| - 1 ==> Uses(c, path[i], path[i + 1])
    requires path[|path| - 1] in stack || exists i :: 0 <= i < |path| - 1 && path[i] == path[|path| - 1]
    ensures Gen(c, path[0], stack).None?
    decreases |path|
  {
    if Gen(c, path[0], stack).Some? {
      GenNeeds(c, path[0], path[1], stack);
      var rest := path[1..];
      assert rest[|rest| - 1] == path[|path| - 1];
      if |path| > 2 {
        assert forall i :: 0 <= i < |rest| - 1 ==> rest[i] == path[i + 1];
        var last := rest[|rest| - 1];
        assert path[|path| - 1] in stack + {path[0]} || exists i :: 0 <= i < |rest| - 1 && rest[i] == last by {
          if path[|path| - 1] !in stack + {path[0]} {
            var i :| 0 <= i < |path| - 1 && path[i] == path[|path| - 1];
            assert rest[i - 1] == rest[|rest| - 1];
          }
        }
        CycleIsError(c, rest, stack + {path[0]});
      }
    }
  }

  /** A layout does not depend on what is being laid out around it. */
  lemma {:induction false} SmallerStack(c: Contract, name: string, small: set<string>, stack: set<string>)
    requires small <= stack && Gen(c, name, stack).Some?
    ensures Gen(c, name, small) == Gen(c, name, stack)
    decreases |c.decls.Keys - stack|, 0
  {
    StackGrows(c.decls.Keys, stack, name);
    var d, inner, less := c.decls[name], stack + {name}, small + {name};
    if d.message { SmallerStack(c, HEADER, less, inner); }
    SmallerWalk(c, d.fields, if d.message then Gen(c, HEADER, inner).value.size else 0, less, inner);
  }

  lemma {:induction false} SmallerWalk(c: Contract, fields: seq<Field>, offset: nat, small: set<string>,
                                       stack: set<string>)
    requires small <= stack && Walk(c, fields, offset, stack).Some?
    ensures Walk(c, fields, offset, small) == Walk(c, fields, offset, stack)
    decreases |c.decls.Keys - stack|, 2 + |fields|
  {
    if fields != [] {
      match fields[0].ftype {
        case Struct(ref, _) => SmallerStack(c, ref, small, stack);
        case _ =>
      }
      SmallerWalk(c, fields[1..], offset + FieldSize(c, fields[0].ftype, stack).value, small, stack);
    }
  }

  // ---------------------------------------------------------------- the fixed part

  /** The tail, if there is one, is last and is a single struct. */
  predicate TailLast(fields: seq<Field>) {
    forall i :: 0 <= i < |fields| && fields[i].IsTail() ==>
      i == |fields| - 1 && fields[i].ftype.Struct? && fields[i].ftype.count == 0
  }

  /** The fixed part of a plan: it ends where the tail starts. */
  function Fixed(fields: seq<Field>, p: Plan): CPlan
    requires |p.slots| == |fields|
  {
    if fields == [] then CPlan(p.size, [])
    else if fields[0].IsTail() then CPlan(p.slots[0].offset, [])
    else
      var rest := Fixed(fields[1..], Plan(p.size, p.slots[1..]));
      CPlan(rest.size, [(fields[0].name, p.slots[0].offset)] + rest.offsets)
  }

  lemma {:induction false} WalkShape(c: Contract, fields: seq<Field>, offset: nat, stack: set<string>)
    requires Walk(c, fields, offset, stack).Some?
    ensures |Walk(c, fields, offset, stack).value.slots| == |fields|
    decreases |fields|
  {
    if fields != [] { WalkShape(c, fields[1..], offset + FieldSize(c, fields[0].ftype, stack).value, stack); }
  }

  /** Where a declaration's own fields start: after the header in a message. */
  function StartOf(c: Contract, d: Decl, stack: set<string>): nat
    requires d.message ==> Gen(c, HEADER, stack).Some?
  {
    if d.message then Gen(c, HEADER, stack).value.size else 0
  }

  lemma GenIsWalk(c: Contract, name: string, stack: set<string>)
    requires Gen(c, name, stack).Some?
    ensures name in c.decls && name !in stack
    ensures var d, inner := c.decls[name], stack + {name};
      && (d.message ==> Gen(c, HEADER, inner).Some?)
      && Walk(c, d.fields, StartOf(c, d, inner), inner) == Gen(c, name, stack)
      && |Gen(c, name, stack).value.slots| == |d.fields|
  {
    var d, inner := c.decls[name], stack + {name};
    WalkShape(c, d.fields, StartOf(c, d, inner), inner);
  }

  /** Taking the tail element off the total leaves the tail's offset. */
  lemma WireIsFixed(c: Contract, name: string)
    requires Gen(c, name, {}).Some? && TailLast(c.decls[name].fields)
    ensures var d := c.decls[name]; var p := Gen(c, name, {}).value;
      |p.slots| == |d.fields| && WireSize(c, name) == Some(Fixed(d.fields, p).size)
  {
    var d := c.decls[name];
    GenIsWalk(c, name, {});
    assert {} + {name} == {name};
    FixedEnd(c, d.fields, StartOf(c, d, {name}), {name});
    var tails := Tails(d.fields);
    if tails != [] { SmallerStack(c, tails[0].ftype.ref, {}, {name}); }
  }

  lemma {:induction false} FixedEnd(c: Contract, fields: seq<Field>, offset: nat, stack: set<string>)
    requires TailLast(fields) && Walk(c, fields, offset, stack).Some?
    requires |Walk(c, fields, offset, stack).value.slots| == |fields|
    ensures var p := Walk(c, fields, offset, stack).value; var tails := Tails(fields);
      if tails == [] then Fixed(fields, p).size == p.size
      else tails[0].ftype.Struct? && tails[0].ftype.count == 0 && Gen(c, tails[0].ftype.ref, stack).Some?
           && Fixed(fields, p).size + Gen(c, tails[0].ftype.ref, stack).value.size == p.size
    decreases fields
  {
    if fields != [] {
      if fields[0].IsTail() {
        assert fields[1..] == [];
      } else {
        var next := offset + FieldSize(c, fields[0].ftype, stack).value;
        WalkShape(c, fields[1..], next, stack);
        FixedEnd(c, fields[1..], next, stack);
      }
    }
  }

  // ---------------------------------------------------------------- the generator's loop

  /** `entries` placed before the plan of what is left. */
  function Joined(entries: seq<Slot>, rest: Option<Plan>): Option<Plan> {
    if rest.None? then None else Some(Plan(rest.value.size, entries + rest.value.slots))
  }

  lemma JoinedNone(rest: Option<Plan>)
    ensures Joined([], rest) == rest
  {
    if rest.Some? { assert [] + rest.value.slots == rest.value.slots; }
  }

  lemma JoinedNext(entries: seq<Slot>, s: Slot, rest: Option<Plan>)
    ensures Joined(entries, Before(s, rest)) == Joined(entries + [s], rest)
  {
    if rest.Some? { assert entries + ([s] + rest.value.slots) == entries + [s] + rest.value.slots; }
  }

  method GenLayout(c: Contract, name: string, stack: set<string>) returns (r: Option<Plan>)
    ensures r == Gen(c, name, stack)
    decreases |c.decls.Keys - stack|, 0
  {
    if name in stack || name !in c.decls { return None; }
    StackGrows(c.decls.Keys, stack, name);
    var d, inner, offset := c.decls[name], stack + {name}, 0;
    if d.message {
      var hdr := GenLayout(c, HEADER, inner);
      if hdr.None? { return None; }
      offset := hdr.value.size;
    }
    r := GenWalk(c, d.fields, offset, inner);
  }

  method GenWalk(c: Contract, fields: seq<Field>, start: nat, stack: set<string>) returns (r: Option<Plan>)
    ensures r == Walk(c, fields, start, stack)
    decreases |c.decls.Keys - stack|, 2
  {
    var offset, entries, i := start, [], 0;
    assert fields[0..] == fields;
    JoinedNone(Walk(c, fields, start, stack));
    while i < |fields|
      invariant 0 <= i <= |fields|
      invariant Walk(c, fields, start, stack) == Joined(entries, Walk(c, fields[i..], offset, stack))
    {
      var size := GenFieldSize(c, fields[i].ftype, stack);
      assert fields[i..][1..] == fields[i + 1..];
      if size.None? { return None; }
      var next := Walk(c, fields[i + 1..], offset + size.value, stack);
      JoinedNext(entries, Slot(fields[i].name, offset, size.value), next);
      entries, offset, i := entries + [Slot(fields[i].name, offset, size.value)], offset + size.value, i + 1;
    }
    assert fields[i..] == [] && entries + [] == entries;
    r := Some(Plan(offset, entries));
  }

  method GenFieldSize(c: Contract, t: FType, stack: set<string>) returns (r: Option<nat>)
    ensures r == FieldSize(c, t, stack)
    decreases |c.decls.Keys - stack|, 1
  {
    match t {
      case Int(s, n) => r := Some(s.Bytes() * Mult(n));
      case Chars(n) => r := Some(n);
      case Alias(ref, n) => r := if ref in c.aliases then Some(c.aliases[ref] * Mult(n)) else None;
      case Struct(ref, n) =>
        var p := GenLayout(c, ref, stack);
        r := if p.Some? then Some(p.value.size * Mult(n)) else None;
    }
  }

  // ---------------------------------------------------------------- the tail's capacity

  const MSG_LEN_MAX: nat := 65535

  /** Floor division, as the generator rounds. */
  function MaxEntries(fixed: nat, elem: nat): int
    requires elem > 0
  {
    (MSG_LEN_MAX - fixed) / elem
  }

  /** The capacity is the largest count whose message still fits the u16 length. */
  lemma CapacityExact(fixed: nat, elem: nat, n: nat)
    requires elem > 0
    ensures n <= MaxEntries(fixed, elem) <==> fixed + n * elem <= MSG_LEN_MAX
  {
    var room, q := MSG_LEN_MAX - fixed, MaxEntries(fixed, elem);
    assert q * elem <= room < q * elem + elem;
    if n <= q {
      assert n * elem <= q * elem;
    } else {
      assert n * elem >= (q + 1) * elem;
    }
  }

  /** The two checks of validate accept a tailed message exactly when one entry fits. */
  lemma AcceptedIffOneFits(fixed: nat, elem: nat)
    requires elem > 0
    ensures fixed < MSG_LEN_MAX && MaxEntries(fixed, elem) >= 1 <==> fixed + elem <= MSG_LEN_MAX
  {
    CapacityExact(fixed, elem, 1);
  }
}
