/** When the generator's layout and the verifier's recomputation over the emitted header agree: exactly. */
module LayoutAgree {
  import opened Basics
  import opened Layout

  /** Fields but the tail embed structs of `scope` only. */
  predicate Closed(c: Contract, fields: seq<Field>, scope: set<string>) {
    forall i :: 0 <= i < |fields| && !fields[i].IsTail() && fields[i].ftype.Struct? ==> fields[i].ftype.ref in scope
  }

  /** A contract with its parsed header and injective C names, and declarations whose tail is last. */
  ghost predicate Comparable(c: Contract, h: Header, snake: string -> string, scope: set<string>) {
    && Emitted(c, h, snake) && h.Plain()
    && (forall m, n :: m in c.decls && n in c.decls && CName(snake, m) == CName(snake, n) ==> m == n)
    && (forall x: Scalar :: x.CName() !in h.typedefs)
    && scope <= c.decls.Keys && HEADER in scope && CName(snake, HEADER) == "fw_msg_hdr"
    && (forall n :: n in scope ==> TailLast(c.decls[n].fields) && Closed(c, c.decls[n].fields, scope))
  }

  /** A struct without a tail, or whose tail element is empty. */
  predicate Flat(c: Contract, ref: string) {
    ref in c.decls
    && var t := Tails(c.decls[ref].fields);
       t == [] || (t[0].ftype.Struct? && var e := Gen(c, t[0].ftype.ref, {}); e.Some? && e.value.size == 0)
  }

  /** A type that has the same width on both sides. */
  predicate GoodType(c: Contract, t: FType) {
    match t
    case Int(_, _) => true
    case Chars(n) => n > 0
    case Alias(ref, _) => ref in c.aliases && c.aliases[ref] > 0
    case Struct(ref, _) => Flat(c, ref)
  }

  /** The embedded header of a message and every field but the tail are of good types. */
  predicate GoodDecl(c: Contract, d: Decl) {
    && (d.message ==> Flat(c, HEADER))
    && forall i :: 0 <= i < |d.fields| && !d.fields[i].IsTail() ==> GoodType(c, d.fields[i].ftype)
  }

  predicate AllGood(c: Contract, scope: set<string>) {
    forall n :: n in scope ==> n in c.decls && GoodDecl(c, c.decls[n])
  }

  ghost function CStack(snake: string -> string, stack: set<string>): set<string> {
    set n | n in stack :: CName(snake, n)
  }

  lemma CStackGrows(snake: string -> string, stack: set<string>, n: string)
    ensures CStack(snake, stack + {n}) == CStack(snake, stack) + {CName(snake, n)}
  {}

  lemma CStackOne(snake: string -> string, n: string)
    ensures CStack(snake, {n}) == {CName(snake, n)}
  {}

  lemma ScalarWidths(s: Scalar)
    ensures ScalarWidth(s.CName()) == Some(s.Bytes())
  {}

  function HeaderOffsets(d: Decl): seq<(string, nat)> { if d.message then [("hdr", 0)] else [] }

  /** What the verifier should find for a declaration that the generator lays out as `p`. */
  function StructPlan(d: Decl, p: Plan): CPlan
    requires |p.slots| == |d.fields|
  {
    var f := Fixed(d.fields, p);
    CPlan(f.size, HeaderOffsets(d) + f.offsets)
  }

  lemma DeclFacts(c: Contract, h: Header, snake: string -> string, scope: set<string>, name: string)
    requires Comparable(c, h, snake, scope) && name in scope
    ensures name in c.decls && TailLast(c.decls[name].fields) && Closed(c, c.decls[name].fields, scope)
    ensures CName(snake, name) in h.structs && h.structs[CName(snake, name)] == EmitDecl(c.decls[name], snake)
  {}

  /** Flat structs are those whose fixed part is all the generator counts. */
  lemma FlatIff(c: Contract, ref: string, stack: set<string>)
    requires Gen(c, ref, stack).Some? && TailLast(c.decls[ref].fields)
    ensures var d := c.decls[ref]; var p := Gen(c, ref, stack).value;
      |p.slots| == |d.fields| && (Flat(c, ref) <==> Fixed(d.fields, p).size == p.size)
  {
    GenIsWalk(c, ref, stack);
    var d, inner := c.decls[ref], stack + {ref};
    FixedEnd(c, d.fields, StartOf(c, d, inner), inner);
    var tails := Tails(d.fields);
    if tails != [] { SmallerStack(c, tails[0].ftype.ref, {}, inner); }
  }

  // ---------------------------------------------------------------- good declarations agree

  lemma HeaderFirst(h: Header, rest: seq<CField>, size: nat, stack: set<string>)
    requires h.Plain() && CWidth(h, StructToken("fw_msg_hdr"), 0, stack) == Some(size)
    ensures var p := CWalk(h, rest, size, stack);
      CWalk(h, [CField("hdr", StructToken("fw_msg_hdr"), 0)] + rest, 0, stack)
      == if p.None? then None else Some(CPlan(p.value.size, [("hdr", 0)] + p.value.offsets))
  {
    var fields := [CField("hdr", StructToken("fw_msg_hdr"), 0)] + rest;
    assert fields[1..] == rest;
  }

  lemma Assemble(h: Header, snake: string -> string, d: Decl, p: Plan, start: nat, stack: set<string>)
    requires h.Plain() && |p.slots| == |d.fields|
    requires CWalk(h, EmitFields(d.fields, snake), start, stack) == Some(Fixed(d.fields, p))
    requires if d.message then CWidth(h, StructToken("fw_msg_hdr"), 0, stack) == Some(start) else start == 0
    ensures CWalk(h, EmitDecl(d, snake), 0, stack) == Some(StructPlan(d, p))
  {
    var own := EmitFields(d.fields, snake);
    if d.message {
      HeaderFirst(h, own, start, stack);
    } else {
      assert [] + own == own && [] + Fixed(d.fields, p).offsets == Fixed(d.fields, p).offsets;
    }
  }

  lemma {:induction false} GenAgrees(c: Contract, h: Header, snake: string -> string, scope: set<string>, name: string,
                                     stack: set<string>)
    requires Comparable(c, h, snake, scope) && AllGood(c, scope) && name in scope
    requires stack <= c.decls.Keys && Gen(c, name, stack).Some?
    ensures var p := Gen(c, name, stack).value; var d := c.decls[name];
      && |p.slots| == |d.fields|
      && CWalk(h, EmitDecl(d, snake), 0, CStack(snake, stack + {name})) == Some(StructPlan(d, p))
    decreases |c.decls.Keys - stack|, 0
  {
    GenIsWalk(c, name, stack);
    StackGrows(c.decls.Keys, stack, name);
    DeclFacts(c, h, snake, scope, name);
    var d, inner, p := c.decls[name], stack + {name}, Gen(c, name, stack).value;
    WalkAgrees(c, h, snake, scope, d.fields, StartOf(c, d, inner), inner);
    if d.message { HeaderAgrees(c, h, snake, scope, inner); }
    Assemble(h, snake, d, p, StartOf(c, d, inner), CStack(snake, inner));
  }

  lemma Single(n: nat)
    ensures n * Mult(0) == n
  {}

  lemma HeaderAgrees(c: Contract, h: Header, snake: string -> string, scope: set<string>, stack: set<string>)
    requires Comparable(c, h, snake, scope) && AllGood(c, scope) && Flat(c, HEADER)
    requires stack <= c.decls.Keys && Gen(c, HEADER, stack).Some?
    ensures CWidth(h, StructToken("fw_msg_hdr"), 0, CStack(snake, stack)) == Some(Gen(c, HEADER, stack).value.size)
    decreases |c.decls.Keys - stack|, 3
  {
    StructAgrees(c, h, snake, scope, HEADER, 0, stack);
    Single(Gen(c, HEADER, stack).value.size);
    assert StructToken(CName(snake, HEADER)) == StructToken("fw_msg_hdr");
  }

  lemma {:induction false} WalkAgrees(c: Contract, h: Header, snake: string -> string, scope: set<string>,
                                      fields: seq<Field>, offset: nat, stack: set<string>)
    requires Comparable(c, h, snake, scope) && AllGood(c, scope) && stack <= c.decls.Keys
    requires TailLast(fields) && Closed(c, fields, scope)
    requires forall i :: 0 <= i < |fields| && !fields[i].IsTail() ==> GoodType(c, fields[i].ftype)
    requires Walk(c, fields, offset, stack).Some? && |Walk(c, fields, offset, stack).value.slots| == |fields|
    ensures CWalk(h, EmitFields(fields, snake), offset, CStack(snake, stack))
            == Some(Fixed(fields, Walk(c, fields, offset, stack).value))
    decreases |c.decls.Keys - stack|, 4 + |fields|
  {
    if fields != [] {
      if fields[0].IsTail() {
        assert fields[1..] == [];
      } else {
        var next := offset + FieldSize(c, fields[0].ftype, stack).value;
        FieldAgrees(c, h, snake, scope, fields[0].ftype, stack);
        WalkShape(c, fields[1..], next, stack);
        WalkAgrees(c, h, snake, scope, fields[1..], next, stack);
        var emitted := EmitFields(fields, snake);
        assert emitted[1..] == EmitFields(fields[1..], snake);
      }
    }
  }

  lemma {:induction false} FieldAgrees(c: Contract, h: Header, snake: string -> string, scope: set<string>, t: FType,
                                       stack: set<string>)
    requires Comparable(c, h, snake, scope) && AllGood(c, scope) && stack <= c.decls.Keys
    requires GoodType(c, t) && (t.Struct? ==> t.ref in scope) && FieldSize(c, t, stack).Some?
    ensures var ct := CType(t, snake); CWidth(h, ct.0, ct.1, CStack(snake, stack)) == FieldSize(c, t, stack)
    decreases |c.decls.Keys - stack|, 2
  {
    match t {
      case Int(s, _) => ScalarWidths(s);
      case Chars(_) => ScalarWidths(U8); assert U8.CName() == "__u8";
      case Alias(_, _) => ScalarWidths(U8); assert U8.CName() == "__u8";
      case Struct(ref, n) => StructAgrees(c, h, snake, scope, ref, n, stack);
    }
  }

  lemma {:induction false} StructAgrees(c: Contract, h: Header, snake: string -> string, scope: set<string>,
                                        ref: string, n: nat, stack: set<string>)
    requires Comparable(c, h, snake, scope) && AllGood(c, scope) && ref in scope && Flat(c, ref)
    requires stack <= c.decls.Keys && Gen(c, ref, stack).Some?
    ensures CWidth(h, StructToken(CName(snake, ref)), n, CStack(snake, stack))
            == Some(Gen(c, ref, stack).value.size * Mult(n))
    decreases |c.decls.Keys - stack|, 1
  {
    GenIsWalk(c, ref, stack);
    DeclFacts(c, h, snake, scope, ref);
    FlatIff(c, ref, stack);
    GenAgrees(c, h, snake, scope, ref, stack);
    CStackGrows(snake, stack, ref);
    assert CName(snake, ref) !in CStack(snake, stack);
  }

  /** The recomputation over the header gives the declaration's wire size and the offset of every emitted field. */
  ghost predicate Agrees(c: Contract, h: Header, snake: string -> string, name: string)
    requires h.Plain()
  {
    && name in c.decls && Gen(c, name, {}).Some? && CName(snake, name) in h.structs
    && var d := c.decls[name]; var p := Gen(c, name, {}).value;
       |p.slots| == |d.fields| && CLayout(h, CName(snake, name)) == Some(StructPlan(d, p))
  }

  /** On good declarations the two computations agree, and the size they agree on is the wire size. */
  lemma LayoutsAgree(c: Contract, h: Header, snake: string -> string, scope: set<string>, name: string)
    requires Comparable(c, h, snake, scope) && AllGood(c, scope) && name in scope && Gen(c, name, {}).Some?
    ensures Agrees(c, h, snake, name)
    ensures WireSize(c, name) == Some(CLayout(h, CName(snake, name)).value.size)
  {
    DeclFacts(c, h, snake, scope, name);
    GenAgrees(c, h, snake, scope, name, {});
    assert {} + {name} == {name};
    CStackOne(snake, name);
    WireIsFixed(c, name);
  }

  // ---------------------------------------------------------------- and only good declarations do

  /** A struct's layout in the header does not depend on what is being laid out around it. */
  lemma {:induction false} SmallerCWidth(h: Header, token: Token, count: nat, small: set<string>, stack: set<string>)
    requires h.Plain() && small <= stack && CWidth(h, token, count, stack).Some?
    ensures CWidth(h, token, count, small) == CWidth(h, token, count, stack)
    decreases |h.structs.Keys - stack|, 0
  {
    match token {
      case StructToken(ref) =>
        StackGrows(h.structs.Keys, stack, ref);
        SmallerCWalk(h, h.structs[ref], 0, small + {ref}, stack + {ref});
      case NameToken(_) =>
    }
  }

  lemma {:induction false} SmallerCWalk(h: Header, fields: seq<CField>, offset: nat, small: set<string>,
                                        stack: set<string>)
    requires h.Plain() && small <= stack && CWalk(h, fields, offset, stack).Some?
    ensures CWalk(h, fields, offset, small) == CWalk(h, fields, offset, stack)
    decreases |h.structs.Keys - stack|, 1 + |fields|
  {
    if fields != [] {
      SmallerCWidth(h, fields[0].token, fields[0].count, small, stack);
      var w := CWidth(h, fields[0].token, fields[0].count, stack).value;
      SmallerCWalk(h, fields[1..], offset + w, small, stack);
    }
  }

  /** The verifier's and the generator's width of one field. */
  ghost predicate SameWidth(c: Contract, h: Header, snake: string -> string, t: FType, stack: set<string>)
    requires h.Plain()
  {
    var ct := CType(t, snake);
    CWidth(h, ct.0, ct.1, CStack(snake, stack)) == FieldSize(c, t, stack)
  }

  /** The header's fields, started at `coff`, have the offsets and the end the generator plans from `goff`. */
  ghost predicate Matching(c: Contract, h: Header, snake: string -> string, fields: seq<Field>, coff: nat, goff: nat,
                           stack: set<string>)
    requires h.Plain()
  {
    var p := Walk(c, fields, goff, stack);
    && p.Some? && |p.value.slots| == |fields|
    && CWalk(h, EmitFields(fields, snake), coff, CStack(snake, stack)) == Some(Fixed(fields, p.value))
  }

  /** Matching forces equal starts and equal widths, field by field: nothing compensates. */
  lemma {:induction false} WidthsForced(c: Contract, h: Header, snake: string -> string, fields: seq<Field>, coff: nat,
                                        goff: nat, stack: set<string>)
    requires h.Plain() && TailLast(fields) && Matching(c, h, snake, fields, coff, goff, stack)
    ensures coff == goff
    ensures forall i :: 0 <= i < |fields| && !fields[i].IsTail() ==> SameWidth(c, h, snake, fields[i].ftype, stack)
    decreases |fields|
  {
    if fields != [] {
      if fields[0].IsTail() {
        assert fields[1..] == [];
      } else {
        var w, g := FirstForced(c, h, snake, fields, coff, goff, stack);
        WidthsForced(c, h, snake, fields[1..], coff + w, goff + g, stack);
        forall i | 0 < i < |fields| && !fields[i].IsTail() ensures SameWidth(c, h, snake, fields[i].ftype, stack) {
          assert fields[i] == fields[1..][i - 1];
        }
      }
    }
  }

  /** The first field of such a list: equal starts, and what is left matches too. */
  lemma FirstForced(c: Contract, h: Header, snake: string -> string, fields: seq<Field>, coff: nat, goff: nat,
                    stack: set<string>) returns (w: nat, g: nat)
    requires h.Plain() && fields != [] && !fields[0].IsTail() && Matching(c, h, snake, fields, coff, goff, stack)
    ensures coff == goff && Matching(c, h, snake, fields[1..], coff + w, goff + g, stack)
    ensures w == g ==> SameWidth(c, h, snake, fields[0].ftype, stack)
  {
    var emitted, rest := EmitFields(fields, snake), EmitFields(fields[1..], snake);
    assert emitted[1..] == rest;
    g := FieldSize(c, fields[0].ftype, stack).value;
    w := CWidth(h, emitted[0].token, emitted[0].count, CStack(snake, stack)).value;
    WalkShape(c, fields[1..], goff + g, stack);
    var p, cp := Walk(c, fields[1..], goff + g, stack), CWalk(h, rest, coff + w, CStack(snake, stack));
    SplitPlans(fields, coff, goff, g, p.value, cp.value);
  }

  /** Equal plans of a field list have equal first offsets and equal rests. */
  lemma SplitPlans(fields: seq<Field>, coff: nat, goff: nat, g: nat, p: Plan, cp: CPlan)
    requires fields != [] && !fields[0].IsTail() && |p.slots| == |fields| - 1
    requires CPlan(cp.size, [(fields[0].name, coff)] + cp.offsets)
             == Fixed(fields, Plan(p.size, [Slot(fields[0].name, goff, g)] + p.slots))
    ensures coff == goff && cp == Fixed(fields[1..], p)
  {
    var whole := Plan(p.size, [Slot(fields[0].name, goff, g)] + p.slots);
    assert whole.slots[1..] == p.slots;
    var rest := Fixed(fields[1..], p);
    var mine, theirs := [(fields[0].name, coff)] + cp.offsets, [(fields[0].name, goff)] + rest.offsets;
    assert mine == theirs && mine[0] == theirs[0] && mine[1..] == cp.offsets && theirs[1..] == rest.offsets;
  }

  /** A declaration that agrees has equal widths throughout, its embedded header included. */
  lemma DeclForced(c: Contract, h: Header, snake: string -> string, scope: set<string>, name: string)
    requires Comparable(c, h, snake, scope) && name in scope && Agrees(c, h, snake, name)
    ensures var d := c.decls[name];
      && (d.message ==> SameWidth(c, h, snake, Struct(HEADER, 0), {name}) && Gen(c, HEADER, {name}).Some?)
      && forall i :: 0 <= i < |d.fields| && !d.fields[i].IsTail() ==>
           SameWidth(c, h, snake, d.fields[i].ftype, {name}) && FieldSize(c, d.fields[i].ftype, {name}).Some?
  {
    DeclFacts(c, h, snake, scope, name);
    GenIsWalk(c, name, {});
    assert {} + {name} == {name};
    CStackOne(snake, name);
    var d, p := c.decls[name], Gen(c, name, {}).value;
    var own, start := EmitFields(d.fields, snake), StartOf(c, d, {name});
    if d.message {
      HeaderStart(c, h, snake, d, p, CName(snake, name));
      var w := CWidth(h, StructToken("fw_msg_hdr"), 0, {CName(snake, name)}).value;
      WidthsForced(c, h, snake, d.fields, w, start, {name});
      Single(Gen(c, HEADER, {name}).value.size);
      assert CType(Struct(HEADER, 0), snake) == (StructToken("fw_msg_hdr"), 0);
    } else {
      assert [] + own == own && [] + Fixed(d.fields, p).offsets == Fixed(d.fields, p).offsets;
      WidthsForced(c, h, snake, d.fields, 0, start, {name});
    }
    forall i | 0 <= i < |d.fields| ensures FieldSize(c, d.fields[i].ftype, {name}).Some? {
      WalkFields(c, d.fields, start, {name}, i);
    }
  }

  lemma HeaderStart(c: Contract, h: Header, snake: string -> string, d: Decl, p: Plan, cname: string)
    requires h.Plain() && d.message && |p.slots| == |d.fields|
    requires CWalk(h, EmitDecl(d, snake), 0, {cname}) == Some(StructPlan(d, p))
    ensures var w := CWidth(h, StructToken("fw_msg_hdr"), 0, {cname});
      w.Some? && CWalk(h, EmitFields(d.fields, snake), w.value, {cname}) == Some(Fixed(d.fields, p))
  {
    var own, first := EmitFields(d.fields, snake), CField("hdr", StructToken("fw_msg_hdr"), 0);
    assert EmitDecl(d, snake) == [first] + own && ([first] + own)[1..] == own;
    var w := CWidth(h, StructToken("fw_msg_hdr"), 0, {cname});
    assert w.Some?;
    HeaderFirst(h, own, w.value, {cname});
    var got, want := CWalk(h, own, w.value, {cname}).value, Fixed(d.fields, p);
    assert ([("hdr", 0)] + got.offsets)[1..] == got.offsets && ([("hdr", 0)] + want.offsets)[1..] == want.offsets;
  }

  lemma {:induction false} WalkFields(c: Contract, fields: seq<Field>, offset: nat, stack: set<string>, i: nat)
    requires i < |fields| && Walk(c, fields, offset, stack).Some?
    ensures FieldSize(c, fields[i].ftype, stack).Some?
    decreases |fields|
  {
    if i > 0 { WalkFields(c, fields[1..], offset + FieldSize(c, fields[0].ftype, stack).value, stack, i - 1); }
  }

  lemma TimesIsMult(n: nat)
    ensures Times(n) == Mult(n) > 0
  {}

  lemma Cancel(a: nat, b: nat, n: nat)
    requires n > 0 && a * n == b * n
    ensures a == b
  {
    assert a < b ==> a * n < b * n;
    assert b < a ==> b * n < a * n;
  }

  /** A type with equal widths is good, when the struct it embeds agrees too. */
  lemma WidthGood(c: Contract, h: Header, snake: string -> string, scope: set<string>, t: FType, name: string)
    requires Comparable(c, h, snake, scope) && name in scope
    requires SameWidth(c, h, snake, t, {name}) && FieldSize(c, t, {name}).Some?
    requires t.Struct? ==> t.ref in scope && Agrees(c, h, snake, t.ref)
    ensures GoodType(c, t)
  {
    match t {
      case Int(_, _) =>
      case Chars(_) => ScalarWidths(U8); assert U8.CName() == "__u8";
      case Alias(ref, n) =>
        ScalarWidths(U8);
        assert U8.CName() == "__u8";
        TimesIsMult(n);
        Cancel(c.aliases[ref], Times(c.aliases[ref]), Mult(n));
      case Struct(ref, n) => StructGood(c, h, snake, scope, ref, n, name);
    }
  }

  lemma StructGood(c: Contract, h: Header, snake: string -> string, scope: set<string>, ref: string, n: nat,
                   name: string)
    requires Comparable(c, h, snake, scope) && name in scope && ref in scope && Agrees(c, h, snake, ref)
    requires Gen(c, ref, {name}).Some? && SameWidth(c, h, snake, Struct(ref, n), {name})
    ensures Flat(c, ref)
  {
    DeclFacts(c, h, snake, scope, ref);
    SmallerStack(c, ref, {}, {name});
    CStackOne(snake, name);
    var cname, cref := CName(snake, name), CName(snake, ref);
    SmallerCWalk(h, h.structs[cref], 0, {cref}, {cname} + {cref});
    TimesIsMult(n);
    Cancel(CLayout(h, cref).value.size, Gen(c, ref, {}).value.size, Mult(n));
    FlatIff(c, ref, {});
  }

  /**
  The exact condition: all declarations agree in size and offsets if and only if no byte array or used
  alias has length 0 and every struct that a field (or a message, as its header) embeds has no tail or
  an empty tail element.
  */
  lemma AgreeExactly(c: Contract, h: Header, snake: string -> string, scope: set<string>)
    requires Comparable(c, h, snake, scope) && forall n :: n in scope ==> Gen(c, n, {}).Some?
    ensures (forall n :: n in scope ==> Agrees(c, h, snake, n)) <==> AllGood(c, scope)
  {
    if AllGood(c, scope) {
      forall n | n in scope ensures Agrees(c, h, snake, n) { LayoutsAgree(c, h, snake, scope, n); }
    }
    if forall n :: n in scope ==> Agrees(c, h, snake, n) {
      forall n | n in scope ensures n in c.decls && GoodDecl(c, c.decls[n]) { AllAgreeGood(c, h, snake, scope, n); }
    }
  }

  lemma AllAgreeGood(c: Contract, h: Header, snake: string -> string, scope: set<string>, name: string)
    requires Comparable(c, h, snake, scope) && name in scope && forall n :: n in scope ==> Agrees(c, h, snake, n)
    ensures GoodDecl(c, c.decls[name])
  {
    var d := c.decls[name];
    DeclFacts(c, h, snake, scope, name);
    DeclForced(c, h, snake, scope, name);
    if d.message { StructGood(c, h, snake, scope, HEADER, 0, name); }
    forall i | 0 <= i < |d.fields| && !d.fields[i].IsTail() ensures GoodType(c, d.fields[i].ftype) {
      WidthGood(c, h, snake, scope, d.fields[i].ftype, name);
    }
  }

  // ---------------------------------------------------------------- where they differ

  /** A zero-length byte array: the generator counts 0, the verifier 1. */
  lemma CharsAgreeIffPositive(c: Contract, h: Header, n: nat, stack: set<string>, cstack: set<string>)
    requires h.Plain() && "__u8" !in h.typedefs
    ensures CWidth(h, NameToken("__u8"), n, cstack) == FieldSize(c, Chars(n), stack) <==> n > 0
  {
    ScalarWidths(U8);
    assert U8.CName() == "__u8";
  }

  /** Beside the header every contract has: e is one byte, list one byte and a tail of e, outer embeds list. */
  const LEN := Field("len", Int(U16, 0))
  const ONE := Field("x", Int(U8, 0))
  const TAIL := Field("tail", Struct("e", 0))
  const EMBEDDED := Field("l", Struct("list", 0))

  const EXAMPLE := Contract(map[], map[HEADER := Decl(false, [LEN]), "e" := Decl(false, [ONE]),
                                       "list" := Decl(false, [ONE, TAIL]), "outer" := Decl(false, [EMBEDDED])])

  const C_LEN := CField("len", NameToken("__u16"), 0)
  const C_ONE := CField("x", NameToken("__u8"), 0)
  const C_EMBEDDED := CField("l", StructToken("fw_list"), 0)

  const EXAMPLE_HEADER := Header(map["fw_msg_hdr" := [C_LEN], "fw_e" := [C_ONE], "fw_list" := [C_ONE],
                                     "fw_outer" := [C_EMBEDDED]], map[])

  /** What snake does to the names of the example. */
  function Snake(name: string): string { if name == HEADER then "msg_hdr" else name }

  lemma WalkOne(c: Contract, f: Field, offset: nat, stack: set<string>)
    requires FieldSize(c, f.ftype, stack).Some?
    ensures var n := FieldSize(c, f.ftype, stack).value;
      Walk(c, [f], offset, stack) == Some(Plan(offset + n, [Slot(f.name, offset, n)]))
  {
    var n := FieldSize(c, f.ftype, stack).value;
    assert [f][1..] == [] && [Slot(f.name, offset, n)] + [] == [Slot(f.name, offset, n)];
  }

  lemma CWalkOne(h: Header, f: CField, offset: nat, stack: set<string>)
    requires h.Plain() && CWidth(h, f.token, f.count, stack).Some?
    ensures var w := CWidth(h, f.token, f.count, stack).value;
      CWalk(h, [f], offset, stack) == Some(CPlan(offset + w, [(f.name, offset)]))
  {
    assert [f][1..] == [] && [(f.name, offset)] + [] == [(f.name, offset)];
  }

  lemma ExampleNames()
    ensures HEADER != "e" && HEADER != "list" && HEADER != "outer"
    ensures "e" != "list" && "e" != "outer" && "list" != "outer"
    ensures "fw_msg_hdr" != "fw_e" && "fw_msg_hdr" != "fw_list" && "fw_msg_hdr" != "fw_outer"
    ensures "fw_e" != "fw_list" && "fw_e" != "fw_outer" && "fw_list" != "fw_outer"
  {
    assert HEADER[0] == 'M' && "e"[0] == 'e' && "list"[0] == 'l' && "outer"[0] == 'o';
    assert "fw_msg_hdr"[3] == 'm' && "fw_e"[3] == 'e' && "fw_list"[3] == 'l' && "fw_outer"[3] == 'o';
  }

  lemma ExampleTail()
    ensures TAIL.IsTail() && !LEN.IsTail() && !ONE.IsTail() && !EMBEDDED.IsTail()
    ensures Tails([ONE, TAIL]) == [TAIL] && Tails([EMBEDDED]) == []
    ensures EmitFields([LEN], Snake) == [C_LEN] && EmitFields([ONE], Snake) == [C_ONE]
    ensures EmitFields([ONE, TAIL], Snake) == [C_ONE] && EmitFields([EMBEDDED], Snake) == [C_EMBEDDED]
  {
    assert "tail"[0] == 't' && "len"[0] == 'l' && "x"[0] == 'x' && "l"[0] == 'l';
    assert [LEN][1..] == [] && [ONE][1..] == [] && [TAIL][1..] == [] && [EMBEDDED][1..] == [];
    assert [ONE, TAIL][1..] == [TAIL];
    assert Tails([TAIL]) == [TAIL] + Tails([]) && Tails([ONE, TAIL]) == [] + Tails([TAIL]);
    assert Tails([EMBEDDED]) == [] + Tails([]);
    ExampleNames();
    assert CName(Snake, "list") == "fw_list";
  }

  lemma ExampleDecls()
    ensures EXAMPLE.decls.Keys == {HEADER, "e", "list", "outer"}
    ensures EXAMPLE.decls[HEADER] == Decl(false, [LEN]) && EXAMPLE.decls["e"] == Decl(false, [ONE])
    ensures EXAMPLE.decls["list"] == Decl(false, [ONE, TAIL]) && EXAMPLE.decls["outer"] == Decl(false, [EMBEDDED])
    ensures EXAMPLE_HEADER.structs.Keys == {"fw_msg_hdr", "fw_e", "fw_list", "fw_outer"}
    ensures EXAMPLE_HEADER.structs["fw_msg_hdr"] == [C_LEN] && EXAMPLE_HEADER.structs["fw_e"] == [C_ONE]
    ensures EXAMPLE_HEADER.structs["fw_list"] == [C_ONE] && EXAMPLE_HEADER.structs["fw_outer"] == [C_EMBEDDED]
  {
    ExampleNames();
  }

  lemma ExampleGen()
    ensures Gen(EXAMPLE, "e", {"outer", "list"}) == Some(Plan(1, [Slot("x", 0, 1)]))
    ensures Gen(EXAMPLE, "list", {"outer"}) == Some(Plan(2, [Slot("x", 0, 1), Slot("tail", 1, 1)]))
    ensures Gen(EXAMPLE, "outer", {}) == Some(Plan(2, [Slot("l", 0, 2)]))
  {
    ExampleNames();
    ExampleDecls();
    WalkOne(EXAMPLE, ONE, 0, {"outer", "list"} + {"e"});
    assert Gen(EXAMPLE, "e", {"outer", "list"}) == Walk(EXAMPLE, [ONE], 0, {"outer", "list"} + {"e"});
    assert {"outer"} + {"list"} == {"outer", "list"} && {} + {"outer"} == {"outer"};
    WalkOne(EXAMPLE, TAIL, 1, {"outer", "list"});
    assert [ONE, TAIL][1..] == [TAIL];
    assert FieldSize(EXAMPLE, ONE.ftype, {"outer", "list"}) == Some(1);
    assert Gen(EXAMPLE, "list", {"outer"}) == Walk(EXAMPLE, [ONE, TAIL], 0, {"outer", "list"});
    assert Walk(EXAMPLE, [ONE, TAIL], 0, {"outer", "list"})
        == Before(Slot("x", 0, 1), Walk(EXAMPLE, [TAIL], 1, {"outer", "list"}));
    assert [Slot("x", 0, 1)] + [Slot("tail", 1, 1)] == [Slot("x", 0, 1), Slot("tail", 1, 1)];
    assert FieldSize(EXAMPLE, EMBEDDED.ftype, {"outer"}) == Some(2);
    WalkOne(EXAMPLE, EMBEDDED, 0, {"outer"});
    assert Gen(EXAMPLE, "outer", {}) == Walk(EXAMPLE, [EMBEDDED], 0, {"outer"});
  }

  /** Every declaration of the example has a layout. */
  lemma ExampleLaysOut(name: string)
    requires name in EXAMPLE.decls
    ensures Gen(EXAMPLE, name, {}).Some?
  {
    ExampleNames();
    ExampleDecls();
    ExampleGen();
    if name == HEADER {
      WalkOne(EXAMPLE, LEN, 0, {} + {HEADER});
    } else if name == "e" {
      SmallerStack(EXAMPLE, "e", {}, {"outer", "list"});
    } else if name == "list" {
      SmallerStack(EXAMPLE, "list", {}, {"outer"});
    }
  }

  lemma ExampleHeader()
    ensures CLayout(EXAMPLE_HEADER, "fw_outer") == Some(CPlan(1, [("l", 0)]))
  {
    ExampleNames();
    ExampleDecls();
    ScalarWidths(U8);
    CWalkOne(EXAMPLE_HEADER, C_ONE, 0, {"fw_outer"} + {"fw_list"});
    assert CWidth(EXAMPLE_HEADER, StructToken("fw_list"), 0, {"fw_outer"}) == Some(1);
    CWalkOne(EXAMPLE_HEADER, C_EMBEDDED, 0, {"fw_outer"});
  }

  lemma ExampleEmitted()
    ensures Emitted(EXAMPLE, EXAMPLE_HEADER, Snake)
  {
    ExampleNames();
    ExampleDecls();
    ExampleTail();
    assert CName(Snake, HEADER) == "fw_msg_hdr" && CName(Snake, "e") == "fw_e";
    assert CName(Snake, "list") == "fw_list" && CName(Snake, "outer") == "fw_outer";
  }

  lemma ExampleInjective()
    ensures forall m, n :: m in EXAMPLE.decls && n in EXAMPLE.decls && CName(Snake, m) == CName(Snake, n) ==> m == n
    ensures CName(Snake, HEADER) == "fw_msg_hdr"
  {
    ExampleNames();
    ExampleDecls();
    assert CName(Snake, "e") == "fw_e" && CName(Snake, "list") == "fw_list" && CName(Snake, "outer") == "fw_outer";
  }

  lemma ExampleClosed()
    ensures forall n :: n in EXAMPLE.decls ==>
              TailLast(EXAMPLE.decls[n].fields) && Closed(EXAMPLE, EXAMPLE.decls[n].fields, EXAMPLE.decls.Keys)
  {
    ExampleDecls();
    ExampleTail();
  }

  /** The example meets all that AgreeExactly asks of a contract and its header. */
  lemma ExampleComparable()
    ensures Comparable(EXAMPLE, EXAMPLE_HEADER, Snake, EXAMPLE.decls.Keys)
    ensures forall n :: n in EXAMPLE.decls.Keys ==> Gen(EXAMPLE, n, {}).Some?
  {
    ExampleNames();
    ExampleDecls();
    ExampleEmitted();
    ExampleInjective();
    ExampleClosed();
    forall n | n in EXAMPLE.decls.Keys ensures Gen(EXAMPLE, n, {}).Some? { ExampleLaysOut(n); }
  }

  /**
  On a contract that all those hypotheses hold of, generator and header differ: the wire size of outer is
  2, its size in the emitted header 1.
  */
  lemma NestedTailDiffers()
    ensures Comparable(EXAMPLE, EXAMPLE_HEADER, Snake, EXAMPLE.decls.Keys)
    ensures forall n :: n in EXAMPLE.decls.Keys ==> Gen(EXAMPLE, n, {}).Some?
    ensures !Flat(EXAMPLE, "list") && !AllGood(EXAMPLE, EXAMPLE.decls.Keys)
    ensures !Agrees(EXAMPLE, EXAMPLE_HEADER, Snake, "outer")
    ensures WireSize(EXAMPLE, "outer") == Some(2)
    ensures CLayout(EXAMPLE_HEADER, CName(Snake, "outer")) == Some(CPlan(1, [("l", 0)]))
  {
    ExampleNames();
    ExampleDecls();
    ExampleTail();
    ExampleComparable();
    ExampleGen();
    ExampleHeader();
    SmallerStack(EXAMPLE, "e", {}, {"outer", "list"});
    assert CName(Snake, "outer") == "fw_outer";
    assert [EMBEDDED][1..] == [];
    assert Fixed([EMBEDDED], Gen(EXAMPLE, "outer", {}).value).size == 2;
    assert !GoodDecl(EXAMPLE, EXAMPLE.decls["outer"]) by { assert EXAMPLE.decls["outer"].fields[0] == EMBEDDED; }
  }
}
