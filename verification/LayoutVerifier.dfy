/**
contract/verify_layout.py over the emitted header: the memoised computation of all struct layouts, and
the comparison of its result with the generator's layout file.
*/
module LayoutVerifier {
  import opened Basics
  import opened Layout
  import opened LayoutAgree

  // ---------------------------------------------------------------- the verifier's memo

  /** The dictionary of offsets: a repeated name keeps the last. */
  function Dict(offsets: seq<(string, nat)>): map<string, nat> {
    if offsets == [] then map[]
    else Dict(offsets[..|offsets| - 1])[offsets[|offsets| - 1].0 := offsets[|offsets| - 1].1]
  }

  predicate NeedsOnly(h: Header, fields: seq<CField>, known: set<string>) {
    forall i :: 0 <= i < |fields| && fields[i].token.StructToken? ==> fields[i].token.name in known
  }

  /** What the memo holds: right sizes and offsets, of a set of structs closed under use. */
  ghost predicate MemoOk(h: Header, sizes: map<string, nat>, layouts: map<string, (nat, map<string, nat>)>)
    requires h.Plain()
  {
    && sizes.Keys == layouts.Keys && sizes.Keys <= h.structs.Keys
    && (forall n :: n in sizes ==>
          && CLayout(h, n).Some? && sizes[n] == CLayout(h, n).value.size
          && layouts[n] == (sizes[n], Dict(CLayout(h, n).value.offsets))
          && NeedsOnly(h, h.structs[n], sizes.Keys))
  }

  /** A struct outside a closed set of laid out structs can be on the stack without disturbing them. */
  lemma {:induction false} OutsideHarmless(h: Header, known: set<string>, fields: seq<CField>, offset: nat,
                                           stack: set<string>, out: string)
    requires h.Plain() && out !in known && NeedsOnly(h, fields, known)
    requires forall n :: n in known ==> n in h.structs && NeedsOnly(h, h.structs[n], known)
    requires CWalk(h, fields, offset, stack).Some?
    ensures CWalk(h, fields, offset, stack + {out}) == CWalk(h, fields, offset, stack)
    decreases |h.structs.Keys - stack|, 1 + |fields|
  {
    if fields != [] {
      OutsideWidth(h, known, fields[0], stack, out);
      var w := CWidth(h, fields[0].token, fields[0].count, stack);
      OutsideHarmless(h, known, fields[1..], offset + w.value, stack, out);
    }
  }

  lemma {:induction false} OutsideWidth(h: Header, known: set<string>, f: CField, stack: set<string>, out: string)
    requires h.Plain() && out !in known && (f.token.StructToken? ==> f.token.name in known)
    requires forall n :: n in known ==> n in h.structs && NeedsOnly(h, h.structs[n], known)
    requires CWidth(h, f.token, f.count, stack).Some?
    ensures CWidth(h, f.token, f.count, stack + {out}) == CWidth(h, f.token, f.count, stack)
    decreases |h.structs.Keys - stack|, 0
  {
    match f.token {
      case StructToken(ref) =>
        StackGrows(h.structs.Keys, stack, ref);
        OutsideHarmless(h, known, h.structs[ref], 0, stack + {ref}, out);
        assert stack + {out} + {ref} == stack + {ref} + {out};
      case NameToken(_) =>
    }
  }

  /** The width of a field whose struct is in the memo, seen from a struct that is not. */
  lemma MemoWidth(h: Header, sizes: map<string, nat>, layouts: map<string, (nat, map<string, nat>)>, ref: string,
                  count: nat, name: string)
    requires h.Plain() && MemoOk(h, sizes, layouts) && ref in sizes && name !in sizes
    ensures CWidth(h, StructToken(ref), count, {name}) == Some(sizes[ref] * Times(count))
  {
    OutsideHarmless(h, sizes.Keys, h.structs[ref], 0, {ref}, name);
    assert {ref} + {name} == {name} + {ref};
  }

  lemma MemoAdd(h: Header, sizes: map<string, nat>, layouts: map<string, (nat, map<string, nat>)>, name: string,
                p: CPlan)
    requires h.Plain() && MemoOk(h, sizes, layouts) && name in h.structs && CLayout(h, name) == Some(p)
    requires NeedsOnly(h, h.structs[name], sizes.Keys)
    ensures MemoOk(h, sizes[name := p.size], layouts[name := (p.size, Dict(p.offsets))])
  {
  }

  lemma {:induction false} BadFieldBadStruct(h: Header, fields: seq<CField>, offset: nat, stack: set<string>, i: nat)
    requires h.Plain() && i < |fields| && CWidth(h, fields[i].token, fields[i].count, stack).None?
    ensures CWalk(h, fields, offset, stack).None?
    decreases |fields|
  {
    if i > 0 && CWidth(h, fields[0].token, fields[0].count, stack).Some? {
      var next := offset + CWidth(h, fields[0].token, fields[0].count, stack).value;
      BadFieldBadStruct(h, fields[1..], next, stack, i - 1);
    }
  }

  function CJoined(done: seq<(string, nat)>, rest: Option<CPlan>): Option<CPlan> {
    if rest.None? then None else Some(CPlan(rest.value.size, done + rest.value.offsets))
  }

  /** `done` are the offsets of the first `i` fields and `off` is where the next one goes. */
  ghost predicate Continues(h: Header, fields: seq<CField>, i: nat, off: nat, done: seq<(string, nat)>,
                            stack: set<string>)
    requires h.Plain() && i <= |fields|
  {
    CWalk(h, fields, 0, stack) == CJoined(done, CWalk(h, fields[i..], off, stack))
  }

  lemma ContinuesStart(h: Header, fields: seq<CField>, stack: set<string>)
    requires h.Plain()
    ensures Continues(h, fields, 0, 0, [], stack)
  {
    var r := CWalk(h, fields, 0, stack);
    assert fields[0..] == fields;
    if r.Some? { assert [] + r.value.offsets == r.value.offsets; }
  }

  lemma ContinuesNext(h: Header, fields: seq<CField>, i: nat, off: nat, done: seq<(string, nat)>, stack: set<string>,
                      w: nat)
    requires h.Plain() && i < |fields| && Continues(h, fields, i, off, done, stack)
    requires CWidth(h, fields[i].token, fields[i].count, stack) == Some(w)
    ensures Continues(h, fields, i + 1, off + w, done + [(fields[i].name, off)], stack)
  {
    assert fields[i..][1..] == fields[i + 1..];
    var r := CWalk(h, fields[i + 1..], off + w, stack);
    if r.Some? {
      assert done + ([(fields[i].name, off)] + r.value.offsets) == done + [(fields[i].name, off)] + r.value.offsets;
    }
  }

  lemma ContinuesEnd(h: Header, fields: seq<CField>, off: nat, done: seq<(string, nat)>, stack: set<string>)
    requires h.Plain() && Continues(h, fields, |fields|, off, done, stack)
    ensures CWalk(h, fields, 0, stack) == Some(CPlan(off, done))
  {
    assert fields[|fields|..] == [] && done + [] == done;
  }

  /** The state of `layout_of` after `i` fields, with the structs in `known` laid out. */
  ghost predicate Partial(h: Header, name: string, known: set<string>, i: nat, off: nat, offsets: map<string, nat>,
                          done: seq<(string, nat)>)
    requires h.Plain() && name in h.structs && i <= |h.structs[name]|
  {
    && NeedsOnly(h, h.structs[name][..i], known) && offsets == Dict(done)
    && Continues(h, h.structs[name], i, off, done, {name})
  }

  lemma PartialNext(h: Header, name: string, was: set<string>, sizes: map<string, nat>,
                    layouts: map<string, (nat, map<string, nat>)>, i: nat, off: nat, offsets: map<string, nat>,
                    done: seq<(string, nat)>, w: nat)
    requires h.Plain() && MemoOk(h, sizes, layouts) && name in h.structs && name !in sizes && i < |h.structs[name]|
    requires Partial(h, name, was, i, off, offsets, done) && was <= sizes.Keys
    requires var f := h.structs[name][i];
      match f.token
      case StructToken(ref) => ref in sizes && w == sizes[ref] * Times(f.count)
      case NameToken(_) => CWidth(h, f.token, f.count, {name}) == Some(w)
    ensures var f := h.structs[name][i];
      Partial(h, name, sizes.Keys, i + 1, off + w, offsets[f.name := off], done + [(f.name, off)])
  {
    var f := h.structs[name][i];
    if f.token.StructToken? { MemoWidth(h, sizes, layouts, f.token.name, f.count, name); }
    ContinuesNext(h, h.structs[name], i, off, done, {name}, w);
    assert (done + [(f.name, off)])[..|done|] == done;
  }

  lemma PartialEnd(h: Header, name: string, sizes: map<string, nat>, layouts: map<string, (nat, map<string, nat>)>,
                   off: nat, offsets: map<string, nat>, done: seq<(string, nat)>)
    requires h.Plain() && MemoOk(h, sizes, layouts) && name in h.structs
    requires Partial(h, name, sizes.Keys, |h.structs[name]|, off, offsets, done)
    ensures MemoOk(h, sizes[name := off], layouts[name := (off, offsets)])
  {
    var fields := h.structs[name];
    assert fields[..|fields|] == fields;
    ContinuesEnd(h, fields, off, done, {name});
    MemoAdd(h, sizes, layouts, name, CPlan(off, done));
  }

  /** compute_layouts: every struct once, in header order, with the sizes already known kept in a memo. */
  class Verifier {
    const h: Header
    var sizes: map<string, nat>
    var layouts: map<string, (nat, map<string, nat>)>

    constructor (h: Header)
      requires h.Plain()
      ensures this.h == h && Valid() && sizes == map[]
    {
      this.h, sizes, layouts := h, map[], map[];
    }

    ghost predicate Valid()
      reads this
    {
      h.Plain() && MemoOk(h, sizes, layouts)
    }

    method Width(token: Token, count: nat, stack: set<string>) returns (r: Option<nat>)
      requires Valid()
      modifies this
      ensures Valid() && old(sizes).Keys <= sizes.Keys
      ensures forall n :: n in stack ==> (n in sizes <==> n in old(sizes))
      ensures r.None? ==> CWidth(h, token, count, stack).None?
      ensures r.Some? && token.StructToken? ==>
                token.name in sizes && token.name !in stack && r == Some(sizes[token.name] * Times(count))
      ensures r.Some? && token.NameToken? ==> forall s :: CWidth(h, token, count, s) == r
      decreases |h.structs.Keys - stack|, 0
    {
      match token {
        case StructToken(ref) =>
          if ref in stack || ref !in h.structs { return None; }
          StackGrows(h.structs.Keys, stack, ref);
          var one := LayoutOf(ref, stack + {ref});
          r := Scaled(one, count);
        case NameToken(base) =>
          var one := if base in h.typedefs then Scaled(ScalarWidth(h.typedefs[base].0), h.typedefs[base].1)
                     else ScalarWidth(base);
          r := Scaled(one, count);
      }
    }

    /** `layout_of`; the stack includes the struct itself. */
    method LayoutOf(name: string, stack: set<string>) returns (r: Option<nat>)
      requires Valid() && name in h.structs && name in stack
      modifies this
      ensures Valid() && old(sizes).Keys <= sizes.Keys
      ensures forall n :: n in stack && n != name ==> (n in sizes <==> n in old(sizes))
      ensures r.None? ==> CWalk(h, h.structs[name], 0, stack).None?
      ensures r.Some? ==> name in sizes && r.value == sizes[name]
      decreases |h.structs.Keys - stack|, 2
    {
      if name in sizes { return Some(sizes[name]); }
      var off, offsets;
      ghost var done;
      r, offsets, done := Fields(name, stack);
      if r.None? { return; }
      off := r.value;
      PartialEnd(h, name, sizes, layouts, off, offsets, done);
      sizes, layouts := sizes[name := off], layouts[name := (off, offsets)];
    }

    /** The loop over the fields of `name`. */
    method Fields(name: string, stack: set<string>)
      returns (r: Option<nat>, offsets: map<string, nat>, ghost done: seq<(string, nat)>)
      requires Valid() && name in h.structs && name in stack && name !in sizes
      modifies this
      ensures Valid() && name !in sizes && old(sizes).Keys <= sizes.Keys
      ensures forall n :: n in stack ==> (n in sizes <==> n in old(sizes))
      ensures r.None? ==> CWalk(h, h.structs[name], 0, stack).None?
      ensures r.Some? ==> Partial(h, name, sizes.Keys, |h.structs[name]|, r.value, offsets, done)
      decreases |h.structs.Keys - stack|, 1
    {
      var off, i := 0, 0;
      offsets, done := map[], [];
      ContinuesStart(h, h.structs[name], {name});
      while i < |h.structs[name]|
        invariant 0 <= i <= |h.structs[name]| && Valid() && name !in sizes
        invariant old(sizes).Keys <= sizes.Keys
        invariant forall n :: n in stack ==> (n in sizes <==> n in old(sizes))
        invariant Partial(h, name, sizes.Keys, i, off, offsets, done)
      {
        var w := NextWidth(name, stack, i, off, offsets, done);
        if w.None? { return None, offsets, done; }
        var f := h.structs[name][i];
        offsets, done := offsets[f.name := off], done + [(f.name, off)];
        off, i := off + w.value, i + 1;
      }
      r := Some(off);
    }

    /** The width of field `i`, and what it adds to the state of the loop. */
    method NextWidth(name: string, stack: set<string>, i: nat, ghost off: nat, ghost offsets: map<string, nat>,
                     ghost done: seq<(string, nat)>) returns (w: Option<nat>)
      requires Valid() && name in h.structs && name in stack && name !in sizes && i < |h.structs[name]|
      requires Partial(h, name, sizes.Keys, i, off, offsets, done)
      modifies this
      ensures Valid() && name !in sizes && old(sizes).Keys <= sizes.Keys
      ensures forall n :: n in stack ==> (n in sizes <==> n in old(sizes))
      ensures w.None? ==> CWalk(h, h.structs[name], 0, stack).None?
      ensures w.Some? ==>
                var f := h.structs[name][i];
                Partial(h, name, sizes.Keys, i + 1, off + w.value, offsets[f.name := off], done + [(f.name, off)])
      decreases |h.structs.Keys - stack|, 1, 0
    {
      var f := h.structs[name][i];
      ghost var was := sizes.Keys;
      w := Width(f.token, f.count, stack);
      if w.None? {
        BadFieldBadStruct(h, h.structs[name], 0, stack, i);
      } else {
        PartialNext(h, name, was, sizes, layouts, i, off, offsets, done, w.value);
      }
    }

    /** All structs of the header: success exactly when each has a layout from scratch, and then that layout. */
    method Compute(order: seq<string>) returns (ok: bool)
      requires Valid() && sizes == map[] && forall n :: n in order <==> n in h.structs
      modifies this
      ensures ok <==> forall n :: n in h.structs ==> CLayout(h, n).Some?
      ensures ok ==> layouts.Keys == h.structs.Keys
      ensures ok ==> forall n :: n in h.structs ==>
                       layouts[n] == (CLayout(h, n).value.size, Dict(CLayout(h, n).value.offsets))
    {
      for i := 0 to |order|
        invariant Valid() && forall j :: 0 <= j < i ==> order[j] in sizes
      {
        var r := LayoutOf(order[i], {order[i]});
        if r.None? { return false; }
      }
      ok := true;
    }
  }

  // ---------------------------------------------------------------- the comparison finds nothing

  function Names(offsets: seq<(string, nat)>): seq<string> {
    seq(|offsets|, i requires 0 <= i < |offsets| => offsets[i].0)
  }

  function CNames(fields: seq<CField>): seq<string> {
    seq(|fields|, i requires 0 <= i < |fields| => fields[i].name)
  }

  /** The names of `got` that are not wanted, in order. */
  function Foreign(got: seq<string>, want: seq<string>): seq<string> {
    if got == [] then [] else (if got[0] in want then [] else [got[0]]) + Foreign(got[1..], want)
  }

  /**
  check_python_layout reports nothing for one declaration: `size` and `offsets` are recomputed from
  the header's fields `got`; the layout file wants `wantSize` and the non-tail fields `want`.
  */
  predicate NoProblems(size: nat, offsets: map<string, nat>, got: seq<string>, message: bool, wantSize: int,
                       want: seq<(string, nat)>, hdrSize: nat)
  {
    var embedded := Foreign(got, Names(want));
    && (if embedded == ["hdr"] then "hdr" in offsets && offsets["hdr"] == 0 && (want != [] ==> want[0].1 == hdrSize)
        else embedded == [] && !message)
    && size == wantSize
    && (if embedded == ["hdr"] then got != [] && got[1..] == Names(want) else got == Names(want))
    && forall i :: 0 <= i < |want| ==> want[i].0 in offsets && offsets[want[i].0] == want[i].1
  }

  predicate Distinct(fields: seq<Field>) { forall i, j :: 0 <= i < j < |fields| ==> fields[i].name != fields[j].name }

  predicate DistinctNames(s: seq<string>) { forall i, j :: 0 <= i < j < |s| ==> s[i] != s[j] }

  lemma {:induction false} DictOfDistinct(s: seq<(string, nat)>)
    requires DistinctNames(Names(s))
    ensures forall k :: k in Dict(s) <==> k in Names(s)
    ensures forall i :: 0 <= i < |s| ==> s[i].0 in Dict(s) && Dict(s)[s[i].0] == s[i].1
    decreases s
  {
    if s != [] {
      var init := s[..|s| - 1];
      assert Names(init) == Names(s)[..|s| - 1];
      DictOfDistinct(init);
      assert Names(s) == Names(init) + [s[|s| - 1].0];
      forall i | 0 <= i < |s| ensures s[i].0 in Dict(s) && Dict(s)[s[i].0] == s[i].1 {
        if i < |init| { assert init[i] == s[i] && Names(s)[i] != Names(s)[|init|]; }
      }
    }
  }

  lemma {:induction false} FixedNames(fields: seq<Field>, p: Plan, snake: string -> string)
    requires |p.slots| == |fields| && TailLast(fields)
    ensures var w := Names(Fixed(fields, p).offsets);
      && w == CNames(EmitFields(fields, snake)) && |w| <= |fields|
      && forall i :: 0 <= i < |w| ==> w[i] == fields[i].name
    decreases fields
  {
    if fields != [] && !fields[0].IsTail() {
      var rest := Plan(p.size, p.slots[1..]);
      FixedNames(fields[1..], rest, snake);
      assert Names(Fixed(fields, p).offsets) == [fields[0].name] + Names(Fixed(fields[1..], rest).offsets);
      assert CNames(EmitFields(fields, snake)) == [fields[0].name] + CNames(EmitFields(fields[1..], snake));
    } else if fields != [] {
      assert fields[1..] == [];
    }
  }

  lemma {:induction false} NothingForeign(got: seq<string>, want: seq<string>)
    requires forall i :: 0 <= i < |got| ==> got[i] in want
    ensures Foreign(got, want) == []
    decreases got
  {
    if got != [] { NothingForeign(got[1..], want); }
  }

  lemma FirstOffset(c: Contract, name: string)
    requires Gen(c, name, {}).Some? && c.decls[name].message && TailLast(c.decls[name].fields)
    ensures Gen(c, HEADER, {}).Some? && |Gen(c, name, {}).value.slots| == |c.decls[name].fields|
    ensures var f := Fixed(c.decls[name].fields, Gen(c, name, {}).value);
      f.offsets != [] ==> f.offsets[0].1 == Gen(c, HEADER, {}).value.size
  {
    GenIsWalk(c, name, {});
    assert {} + {name} == {name};
    SmallerStack(c, HEADER, {}, {name});
  }

  /** The declaration has distinct field names, none of them hdr in a message. */
  predicate NamedApart(d: Decl) {
    Distinct(d.fields) && (d.message ==> forall i :: 0 <= i < |d.fields| ==> d.fields[i].name != "hdr")
  }

  /** check_python_layout on one declaration, against what the generator wrote to the layout file. */
  ghost predicate CheckClean(c: Contract, h: Header, snake: string -> string, name: string)
    requires h.Plain()
  {
    && name in c.decls && CName(snake, name) in h.structs && "fw_msg_hdr" in h.structs
    && Gen(c, name, {}).Some? && WireSize(c, name).Some?
    && CLayout(h, CName(snake, name)).Some? && CLayout(h, "fw_msg_hdr").Some?
    && var d := c.decls[name]; var p := Gen(c, name, {}).value; var got := CLayout(h, CName(snake, name)).value;
       && |p.slots| == |d.fields|
       && NoProblems(got.size, Dict(got.offsets), CNames(h.structs[CName(snake, name)]), d.message,
                     WireSize(c, name).value, Fixed(d.fields, p).offsets, CLayout(h, "fw_msg_hdr").value.size)
  }

  /** On good declarations the comparison of the layout file with the recomputed header reports no problem. */
  lemma CheckPasses(c: Contract, h: Header, snake: string -> string, scope: set<string>, name: string)
    requires Comparable(c, h, snake, scope) && AllGood(c, scope) && name in scope
    requires Gen(c, name, {}).Some? && Gen(c, HEADER, {}).Some? && NamedApart(c.decls[name])
    ensures CheckClean(c, h, snake, name)
  {
    var d, p := c.decls[name], Gen(c, name, {}).value;
    LayoutsAgree(c, h, snake, scope, name);
    LayoutsAgree(c, h, snake, scope, HEADER);
    DeclFacts(c, h, snake, scope, name);
    if d.message {
      FirstOffset(c, name);
      FlatHeader(c, h, snake, scope);
    }
    PlanPasses(d, p, snake, CLayout(h, "fw_msg_hdr").value.size);
  }

  lemma FlatHeader(c: Contract, h: Header, snake: string -> string, scope: set<string>)
    requires Comparable(c, h, snake, scope) && Agrees(c, h, snake, HEADER) && Flat(c, HEADER)
    ensures CLayout(h, "fw_msg_hdr").value.size == Gen(c, HEADER, {}).value.size
  {
    DeclFacts(c, h, snake, scope, HEADER);
    FlatIff(c, HEADER, {});
  }

  lemma {:induction false} CWalkNames(h: Header, fields: seq<CField>, offset: nat, stack: set<string>)
    requires h.Plain() && CWalk(h, fields, offset, stack).Some?
    ensures Names(CWalk(h, fields, offset, stack).value.offsets) == CNames(fields)
    decreases |fields|
  {
    if fields != [] {
      var w := CWidth(h, fields[0].token, fields[0].count, stack).value;
      CWalkNames(h, fields[1..], offset + w, stack);
      var rest := CWalk(h, fields[1..], offset + w, stack).value.offsets;
      assert Names([(fields[0].name, offset)] + rest) == [fields[0].name] + Names(rest);
      assert CNames(fields) == [fields[0].name] + CNames(fields[1..]);
    }
  }

  /** A clean comparison leaves no room: the declaration agrees in size and in every offset. */
  lemma CleanAgrees(c: Contract, h: Header, snake: string -> string, scope: set<string>, name: string)
    requires Comparable(c, h, snake, scope) && name in scope
    requires CheckClean(c, h, snake, name) && NamedApart(c.decls[name])
    ensures Agrees(c, h, snake, name)
  {
    DeclFacts(c, h, snake, scope, name);
    var d, p := c.decls[name], Gen(c, name, {}).value;
    var cname := CName(snake, name);
    var got, want := CLayout(h, cname).value, Fixed(d.fields, p).offsets;
    WireIsFixed(c, name);
    FixedNames(d.fields, p, snake);
    DeclNames(d, snake);
    CWalkNames(h, h.structs[cname], 0, {cname});
    SameOffsets(d.message, got.offsets, want);
    if d.message { FirstIsZero(h, h.structs[cname], {cname}); }
    assert got.offsets == HeaderOffsets(d) + want;
  }

  lemma FirstIsZero(h: Header, fields: seq<CField>, stack: set<string>)
    requires h.Plain() && fields != [] && CWalk(h, fields, 0, stack).Some?
    ensures var o := CWalk(h, fields, 0, stack).value.offsets; o != [] && o[0] == (fields[0].name, 0)
  {
  }

  /** Distinct names with the right dictionary entries are the right pairs, behind the embedded header. */
  lemma {:induction false} SameOffsets(message: bool, got: seq<(string, nat)>, want: seq<(string, nat)>)
    requires Names(got) == (if message then ["hdr"] else []) + Names(want)
    requires DistinctNames(Names(want)) && (message ==> "hdr" !in Names(want))
    requires forall i :: 0 <= i < |want| ==> want[i].0 in Dict(got) && Dict(got)[want[i].0] == want[i].1
    ensures got[|got| - |want|..] == want && |got| == |want| + if message then 1 else 0
  {
    var k := if message then 1 else 0;
    assert |Names(got)| == |got| && |Names(want)| == |want|;
    forall i | 0 <= i < |want| ensures got[k..][i] == want[i] { SameOffset(message, got, want, i); }
  }

  lemma {:induction false} SameOffset(message: bool, got: seq<(string, nat)>, want: seq<(string, nat)>, i: nat)
    requires Names(got) == (if message then ["hdr"] else []) + Names(want) && i < |want|
    requires DistinctNames(Names(want)) && (message ==> "hdr" !in Names(want))
    requires want[i].0 in Dict(got) && Dict(got)[want[i].0] == want[i].1
    ensures |got| == |want| + (if message then 1 else 0) && got[(if message then 1 else 0) + i] == want[i]
  {
    assert |Names(got)| == |got| && |Names(want)| == |want|;
    BehindHeader(message, Names(got), Names(want));
    DictOfDistinct(got);
    SamePair(got, want, (if message then 1 else 0) + i, i);
  }

  lemma {:induction false} SamePair(got: seq<(string, nat)>, want: seq<(string, nat)>, j: nat, i: nat)
    requires j < |got| && i < |want| && Names(got)[j] == Names(want)[i]
    requires got[j].0 in Dict(got) && Dict(got)[got[j].0] == got[j].1
    requires want[i].0 in Dict(got) && Dict(got)[want[i].0] == want[i].1
    ensures got[j] == want[i]
  {
  }

  lemma BehindHeader(message: bool, got: seq<string>, want: seq<string>)
    requires got == (if message then ["hdr"] else []) + want
    requires DistinctNames(want) && (message ==> "hdr" !in want)
    ensures DistinctNames(got) && |got| == |want| + if message then 1 else 0
    ensures forall i :: 0 <= i < |want| ==> got[(if message then 1 else 0) + i] == want[i]
  {
  }

  /** The gate is exact: it is clean on all declarations if and only if all of them are good. */
  lemma GateIsExact(c: Contract, h: Header, snake: string -> string, scope: set<string>)
    requires Comparable(c, h, snake, scope)
    requires forall n :: n in scope ==> Gen(c, n, {}).Some? && NamedApart(c.decls[n])
    ensures (forall n :: n in scope ==> CheckClean(c, h, snake, n)) <==> AllGood(c, scope)
  {
    AgreeExactly(c, h, snake, scope);
    if AllGood(c, scope) {
      forall n | n in scope ensures CheckClean(c, h, snake, n) { CheckPasses(c, h, snake, scope, n); }
    }
    if forall n :: n in scope ==> CheckClean(c, h, snake, n) {
      forall n | n in scope ensures Agrees(c, h, snake, n) { CleanAgrees(c, h, snake, scope, n); }
    }
  }

  lemma PlanPasses(d: Decl, p: Plan, snake: string -> string, hdrSize: nat)
    requires |p.slots| == |d.fields| && TailLast(d.fields) && Distinct(d.fields)
    requires d.message ==> forall i :: 0 <= i < |d.fields| ==> d.fields[i].name != "hdr"
    requires d.message ==> (var f := Fixed(d.fields, p); f.offsets != [] ==> f.offsets[0].1 == hdrSize)
    ensures var got := StructPlan(d, p);
      NoProblems(got.size, Dict(got.offsets), CNames(EmitDecl(d, snake)), d.message, got.size,
                 Fixed(d.fields, p).offsets, hdrSize)
  {
    FixedNames(d.fields, p, snake);
    DeclNames(d, snake);
    var want := Fixed(d.fields, p).offsets;
    if d.message {
      MessagePasses(want, Fixed(d.fields, p).size, hdrSize);
    } else {
      assert [] + want == want && [] + Names(want) == Names(want);
      StructPasses(want, Fixed(d.fields, p).size, hdrSize);
    }
  }

  lemma DeclNames(d: Decl, snake: string -> string)
    ensures CNames(EmitDecl(d, snake)) == (if d.message then ["hdr"] else []) + CNames(EmitFields(d.fields, snake))
  {}

  lemma StructPasses(want: seq<(string, nat)>, size: nat, hdrSize: nat)
    requires DistinctNames(Names(want))
    ensures NoProblems(size, Dict(want), Names(want), false, size, want, hdrSize)
  {
    NothingForeign(Names(want), Names(want));
    DictOfDistinct(want);
  }

  lemma MessagePasses(want: seq<(string, nat)>, size: nat, hdrSize: nat)
    requires DistinctNames(Names(want)) && "hdr" !in Names(want) && (want != [] ==> want[0].1 == hdrSize)
    ensures NoProblems(size, Dict([("hdr", 0)] + want), ["hdr"] + Names(want), true, size, want, hdrSize)
  {
    var all, got := [("hdr", 0)] + want, ["hdr"] + Names(want);
    NothingForeign(Names(want), Names(want));
    assert got[1..] == Names(want);
    assert Names(all) == got;
    assert all[0] == ("hdr", 0);
    DictOfDistinct(all);
    forall i | 0 <= i < |want| ensures want[i].0 in Dict(all) && Dict(all)[want[i].0] == want[i].1 {
      assert all[i + 1] == want[i];
    }
  }

  /**
  On every acyclic contract of that kind the verifier succeeds, and every declaration's recomputed size
  is the generator's wire size.
  */
  lemma AcyclicVerifies(c: Contract, h: Header, snake: string -> string, rank: string -> nat)
    requires Comparable(c, h, snake, c.decls.Keys) && AllGood(c, c.decls.Keys) && Ranked(c, rank)
    requires forall s :: s in h.structs ==> exists n :: n in c.decls && CName(snake, n) == s
    ensures forall s :: s in h.structs ==> CLayout(h, s).Some?
    ensures forall n :: n in c.decls ==>
              WireSize(c, n).Some? && CLayout(h, CName(snake, n)).value.size == WireSize(c, n).value
  {
    forall n | n in c.decls
      ensures CLayout(h, CName(snake, n)).Some? && WireSize(c, n) == Some(CLayout(h, CName(snake, n)).value.size)
    {
      AcyclicLaysOut(c, rank, n, {});
      LayoutsAgree(c, h, snake, c.decls.Keys, n);
    }
  }
}
