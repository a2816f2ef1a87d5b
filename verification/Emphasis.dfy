/** The delimiter algorithm of deps/cmark/src/inlines.c, searching for openers all the way down: what the code
    with its search short cut is proved against. CommonMark 0.24, appendix, phase 2. */
module Emphasis {
  import opened Bytes
  import opened Optional

  const UNDERSCORE: byte := 0x5F
  const APOSTROPHE: byte := 0x27

  const LEFT_SINGLE: seq<byte> := [0xE2, 0x80, 0x98]
  const RIGHT_SINGLE: seq<byte> := [0xE2, 0x80, 0x99]
  const LEFT_DOUBLE: seq<byte> := [0xE2, 0x80, 0x9C]
  const RIGHT_DOUBLE: seq<byte> := [0xE2, 0x80, 0x9D]

  // ---------------------------------------------------------------- inlines and delimiters

  /** Siblings and what is nested in them. The texts that delimiters point to are known by their id; the other
      inlines are of no concern here. */
  datatype Inline = Text(id: nat, literal: seq<byte>) | Emph(kids: seq<Inline>) | Strong(kids: seq<Inline>)
      | Other(n: nat)

  datatype Delim = Delim(inl: nat, c: byte, canOpen: bool, canClose: bool)

  predicate IsStar(c: byte) { c == STAR || c == UNDERSCORE }

  predicate IsQuote(c: byte) { c == APOSTROPHE || c == QUOTE }

  predicate Closes(d: Delim) { d.canClose && (IsStar(d.c) || IsQuote(d.c)) }

  predicate Opens(d: Delim, c: byte) { d.c == c && d.canOpen }

  predicate IsAt(inls: seq<Inline>, p: int, id: nat) { 0 <= p < |inls| && inls[p].Text? && inls[p].id == id }

  function PlaceFrom(inls: seq<Inline>, id: nat, p: nat): (r: nat)
    requires p <= |inls|
    ensures p <= r <= |inls| && (r < |inls| ==> IsAt(inls, r, id)) && forall q :: p <= q < r ==> !IsAt(inls, q, id)
    decreases |inls| - p
  {
    if p == |inls| || IsAt(inls, p, id) then p else PlaceFrom(inls, id, p + 1)
  }

  /** Where the text with this id stands; behind the end when there is none. */
  function Place(inls: seq<Inline>, id: nat): (p: nat)
    ensures p <= |inls| && (p < |inls| ==> IsAt(inls, p, id)) && forall q :: 0 <= q < p ==> !IsAt(inls, q, id)
  {
    PlaceFrom(inls, id, 0)
  }

  predicate Distinct(inls: seq<Inline>) {
    forall p, q :: 0 <= p < q < |inls| && inls[p].Text? && inls[q].Text? ==> inls[p].id != inls[q].id
  }

  lemma PlaceIs(inls: seq<Inline>, p: nat, id: nat)
    requires Distinct(inls) && IsAt(inls, p, id)
    ensures Place(inls, id) == p
  {
  }

  /** A delimiter that has its text among the siblings; one for emphasis has a character left. */
  predicate HasText(inls: seq<Inline>, d: Delim) {
    var p := Place(inls, d.inl);
    p < |inls| && (IsStar(d.c) ==> inls[p].literal != [])
  }

  /** The texts of the delimiters are siblings, in the order of the delimiters. */
  predicate Laid(ds: seq<Delim>, inls: seq<Inline>) {
    && Distinct(inls)
    && (forall k :: 0 <= k < |ds| ==> HasText(inls, ds[k]))
    && (forall j, k :: 0 <= j < k < |ds| ==> Place(inls, ds[j].inl) < Place(inls, ds[k].inl))
  }

  function LiteralOf(inls: seq<Inline>, id: nat): seq<byte> {
    var p := Place(inls, id);
    if p < |inls| then inls[p].literal else []
  }

  function SetText(inls: seq<Inline>, id: nat, literal: seq<byte>): seq<Inline> {
    var p := Place(inls, id);
    if p < |inls| then inls[p := Text(id, literal)] else inls
  }

  // ---------------------------------------------------------------- one opener and one closer

  /** How many characters an opener and a closer use up. */
  function UseDelims(openerLen: nat, closerLen: nat): nat {
    if closerLen < 3 || openerLen < 3 then if closerLen <= openerLen then closerLen else openerLen
    else if closerLen % 2 == 0 then 2 else 1
  }

  lemma UsesOneOrTwo(openerLen: nat, closerLen: nat)
    requires openerLen > 0 && closerLen > 0
    ensures var use := UseDelims(openerLen, closerLen); (use == 1 || use == 2) && use <= openerLen && use <= closerLen
    ensures UseDelims(openerLen, closerLen) == 2 <==>
            openerLen >= 2 && closerLen >= 2 && (openerLen == 2 || closerLen == 2 || closerLen % 2 == 0)
  {
  }

  function Shortened(x: Inline, use: nat): seq<Inline>
    requires x.Text? && use <= |x.literal|
  {
    if |x.literal| == use then [] else [Text(x.id, x.literal[..|x.literal| - use])]
  }

  /** What stands between opener and closer goes into a new node between them; the two lose the characters used,
      and disappear when none is left. */
  function Wrapped(inls: seq<Inline>, po: nat, pc: nat, use: nat): seq<Inline>
    requires po < pc < |inls| && inls[po].Text? && inls[pc].Text? && use <= |inls[po].literal|
    requires use <= |inls[pc].literal|
  {
    var kids := inls[po + 1..pc];
    inls[..po] + Shortened(inls[po], use) + [if use == 1 then Emph(kids) else Strong(kids)]
        + Shortened(inls[pc], use) + inls[pc + 1..]
  }

  // ---------------------------------------------------------------- the algorithm

  /** Which opener was chosen for a closer. */
  datatype Choice = Choice(closer: nat, opener: Option<nat>)

  /** The delimiters above the bottom of the stack, the siblings, and the delimiter that is looked at. */
  datatype State = State(ds: seq<Delim>, inls: seq<Inline>, i: nat, choices: seq<Choice>)

  predicate Ready(st: State) { Laid(st.ds, st.inls) && st.i <= |st.ds| }

  /** The nearest opener below i. */
  function FindOpener(ds: seq<Delim>, i: nat, c: byte): (o: Option<nat>)
    requires i <= |ds|
    ensures o.Some? ==> o.value < i && Opens(ds[o.value], c) && forall j :: o.value < j < i ==> !Opens(ds[j], c)
    ensures o.None? ==> forall j :: 0 <= j < i ==> !Opens(ds[j], c)
  {
    if i == 0 then None else if Opens(ds[i - 1], c) then Some(i - 1) else FindOpener(ds, i - 1, c)
  }

  function RightQuote(c: byte): seq<byte> { if c == QUOTE then RIGHT_DOUBLE else RIGHT_SINGLE }

  function LeftQuote(c: byte): seq<byte> { if c == QUOTE then LEFT_DOUBLE else LEFT_SINGLE }

  /** S_insert_emph: the delimiters between go, and opener and closer when they have no characters left. */
  function InsertEmph(st: State, o: nat): State
    requires Ready(st) && o < st.i < |st.ds| && IsStar(st.ds[o].c) && IsStar(st.ds[st.i].c)
  {
    var po, pc := Place(st.inls, st.ds[o].inl), Place(st.inls, st.ds[st.i].inl);
    var openerLen, closerLen := |st.inls[po].literal|, |st.inls[pc].literal|;
    UsesOneOrTwo(openerLen, closerLen);
    var use := UseDelims(openerLen, closerLen);
    var keepTo := if openerLen == use then o else o + 1;
    var goOn := if closerLen == use then st.i + 1 else st.i;
    State(st.ds[..keepTo] + st.ds[goOn..], Wrapped(st.inls, po, pc, use), keepTo, st.choices)
  }

  function Step(st: State): State
    requires Ready(st) && st.i < |st.ds|
  {
    var d := st.ds[st.i];
    if !Closes(d) then st.(i := st.i + 1)
    else
      var o := FindOpener(st.ds, st.i, d.c);
      var choice := Choice(d.inl, if o.Some? then Some(st.ds[o.value].inl) else None);
      var st1 := st.(choices := st.choices + [choice]);
      if IsStar(d.c) then
        if o.Some? then InsertEmph(st1, o.value)
        else if d.canOpen then st1.(i := st.i + 1)
        else st1.(ds := st.ds[..st.i] + st.ds[st.i + 1..])
      else
        var inls := SetText(st.inls, d.inl, RightQuote(d.c));
        if o.Some? then st1.(inls := SetText(inls, st.ds[o.value].inl, LeftQuote(d.c)), i := st.i + 1)
        else if d.canOpen then st1.(inls := inls, i := st.i + 1)
        else st1.(inls := inls, ds := st.ds[..st.i] + st.ds[st.i + 1..])
  }

  // ---------------------------------------------------------------- the order of texts is kept

  lemma SetTextLaid(ds: seq<Delim>, inls: seq<Inline>, d: Delim, literal: seq<byte>)
    requires Laid(ds, inls) && d in ds && (IsStar(d.c) ==> literal != []) && literal != []
    ensures Laid(ds, SetText(inls, d.inl, literal))
  {
    var p := Place(inls, d.inl);
    var after := SetText(inls, d.inl, literal);
    forall k | 0 <= k < |ds| ensures Place(after, ds[k].inl) == Place(inls, ds[k].inl) && HasText(after, ds[k]) {
      assert HasText(inls, ds[k]);
      PlaceIs(after, Place(inls, ds[k].inl), ds[k].inl);
    }
  }

  lemma DropLaid(ds: seq<Delim>, inls: seq<Inline>, i: nat)
    requires Laid(ds, inls) && i < |ds|
    ensures Laid(ds[..i] + ds[i + 1..], inls)
  {
    var rest := ds[..i] + ds[i + 1..];
    assert forall k :: 0 <= k < |rest| ==> rest[k] == ds[if k < i then k else k + 1];
    hide Place, HasText;
    forall j, k | 0 <= j < k < |rest| ensures Place(inls, rest[j].inl) < Place(inls, rest[k].inl) {
      assert (if j < i then j else j + 1) < (if k < i then k else k + 1);
    }
  }

  /** Where an element of the old list of siblings stands in the new one. */
  lemma WrappedElements(inls: seq<Inline>, po: nat, pc: nat, use: nat)
    requires po < pc < |inls| && inls[po].Text? && inls[pc].Text? && 0 < use <= |inls[po].literal|
    requires use <= |inls[pc].literal|
    ensures var w := Wrapped(inls, po, pc, use);
            var e := po + |Shortened(inls[po], use)|;
            var n := e + 1 + |Shortened(inls[pc], use)|;
            && |w| == n + |inls| - pc - 1
            && (forall p :: 0 <= p < po ==> w[p] == inls[p])
            && (forall p :: pc < p < |inls| ==> w[n + p - pc - 1] == inls[p])
            && (|inls[po].literal| > use ==> w[po] == Text(inls[po].id, inls[po].literal[..|inls[po].literal| - use]))
            && (|inls[pc].literal| > use ==>
                w[n - 1] == Text(inls[pc].id, inls[pc].literal[..|inls[pc].literal| - use]))
            && !w[e].Text?
  {
    var w := Wrapped(inls, po, pc, use);
    var a, o, c, b := inls[..po], Shortened(inls[po], use), Shortened(inls[pc], use), inls[pc + 1..];
    var e := po + |o|;
    assert w == a + o + [w[e]] + c + b;
  }

  lemma WrappedAt(inls: seq<Inline>, po: nat, pc: nat, use: nat)
    requires Distinct(inls) && po < pc < |inls| && inls[po].Text? && inls[pc].Text? && 0 < use <= |inls[po].literal|
    requires use <= |inls[pc].literal|
    ensures var w := Wrapped(inls, po, pc, use);
            var e := po + |Shortened(inls[po], use)|;
            var n := e + 1 + |Shortened(inls[pc], use)|;
            && |w| == n + |inls| - pc - 1 && Distinct(w)
            && (forall p :: 0 <= p < po ==> w[p] == inls[p])
            && (forall p :: pc < p < |inls| ==> w[n + p - pc - 1] == inls[p])
            && (|inls[po].literal| > use ==> w[po] == Text(inls[po].id, inls[po].literal[..|inls[po].literal| - use]))
            && (|inls[pc].literal| > use ==>
                w[n - 1] == Text(inls[pc].id, inls[pc].literal[..|inls[pc].literal| - use]))
            && !w[e].Text?
  {
    var w := Wrapped(inls, po, pc, use);
    WrappedElements(inls, po, pc, use);
    var e := po + |Shortened(inls[po], use)|;
    var n := e + 1 + |Shortened(inls[pc], use)|;
    hide Wrapped;
    forall p, q | 0 <= p < q < |w| && w[p].Text? && w[q].Text? ensures w[p].id != w[q].id {
      TextComesFrom(inls, po, pc, use, p);
      TextComesFrom(inls, po, pc, use, q);
      hide Shortened;
      InOrder(po, pc, e, n, p, q);
    }
  }

  /** Where what stands at p stood before, when e is the place of the new node and n that behind the closer. */
  function Origin(po: nat, pc: nat, e: nat, n: nat, p: nat): int {
    if p < po then p else if p < e then po else if p < n then pc else p - n + pc + 1
  }

  lemma InOrder(po: nat, pc: nat, e: nat, n: nat, p: nat, q: nat)
    requires po <= e <= po + 1 && e < n <= e + 2 && po < pc && p < q && p != e && q != e
    ensures Origin(po, pc, e, n, p) < Origin(po, pc, e, n, q)
  {
  }

  lemma TextComesFrom(inls: seq<Inline>, po: nat, pc: nat, use: nat, p: nat)
    requires po < pc < |inls| && inls[po].Text? && inls[pc].Text? && 0 < use <= |inls[po].literal|
    requires use <= |inls[pc].literal| && p < |Wrapped(inls, po, pc, use)| && Wrapped(inls, po, pc, use)[p].Text?
    ensures var x, e := Wrapped(inls, po, pc, use)[p], po + |Shortened(inls[po], use)|;
            var p0 := Origin(po, pc, e, e + 1 + |Shortened(inls[pc], use)|, p);
            p != e && 0 <= p0 < |inls| && inls[p0].Text? && inls[p0].id == x.id
  {
    var w, lo, lc := Wrapped(inls, po, pc, use), |inls[po].literal|, |inls[pc].literal|;
    var e := po + |Shortened(inls[po], use)|;
    var n := e + 1 + |Shortened(inls[pc], use)|;
    assert e == (if lo > use then po + 1 else po) && n == (if lc > use then e + 2 else e + 1);
    hide Wrapped, Shortened;
    WrappedElements(inls, po, pc, use);
    if p < po {
      assert w[p] == inls[p];
    } else if p >= n {
      assert w[n + (p - n + pc + 1) - pc - 1] == inls[p - n + pc + 1];
    }
  }

  /** Siblings that are laid out at the places ps. */
  lemma LaidAt(ds: seq<Delim>, inls: seq<Inline>, ps: seq<nat>)
    requires Distinct(inls) && |ps| == |ds| && forall j, k :: 0 <= j < k < |ps| ==> ps[j] < ps[k]
    requires forall k :: 0 <= k < |ds| ==>
              IsAt(inls, ps[k], ds[k].inl) && (IsStar(ds[k].c) ==> inls[ps[k]].literal != [])
    ensures Laid(ds, inls)
  {
    forall k | 0 <= k < |ds| ensures Place(inls, ds[k].inl) == ps[k] && HasText(inls, ds[k]) {
      PlaceIs(inls, ps[k], ds[k].inl);
    }
  }

  /** Where a sibling stands after wrapping, when it is outside and still there. */
  function NewPlace(inls: seq<Inline>, po: nat, pc: nat, use: nat, p: nat): nat
    requires po < pc < |inls| && inls[po].Text? && inls[pc].Text? && use <= |inls[po].literal|
    requires use <= |inls[pc].literal|
    requires p <= po || pc <= p
  {
    var n := po + |Shortened(inls[po], use)| + 1 + |Shortened(inls[pc], use)|;
    if p <= po then p else if p == pc then n - 1 else n + (p - pc - 1)
  }

  /** What is outside, and not used up. */
  predicate Stays(inls: seq<Inline>, po: nat, pc: nat, use: nat, p: nat)
    requires po < pc < |inls| && inls[po].Text? && inls[pc].Text?
  {
    p < po || (p == po && |inls[po].literal| > use) || (p == pc && |inls[pc].literal| > use) || pc < p < |inls|
  }

  lemma StaysAt(inls: seq<Inline>, po: nat, pc: nat, use: nat, d: Delim)
    requires Distinct(inls) && po < pc < |inls| && inls[po].Text? && inls[pc].Text? && 0 < use <= |inls[po].literal|
    requires use <= |inls[pc].literal|
    requires HasText(inls, d) && Stays(inls, po, pc, use, Place(inls, d.inl))
    ensures var w, q := Wrapped(inls, po, pc, use), NewPlace(inls, po, pc, use, Place(inls, d.inl));
            IsAt(w, q, d.inl) && (IsStar(d.c) ==> w[q].literal != [])
  {
    WrappedAt(inls, po, pc, use);
    hide Wrapped, Distinct;
  }

  lemma NewPlaceGrows(inls: seq<Inline>, po: nat, pc: nat, use: nat, p: nat, q: nat)
    requires po < pc < |inls| && inls[po].Text? && inls[pc].Text? && 0 < use <= |inls[po].literal|
    requires use <= |inls[pc].literal|
    requires Stays(inls, po, pc, use, p) && Stays(inls, po, pc, use, q) && p < q
    ensures NewPlace(inls, po, pc, use, p) < NewPlace(inls, po, pc, use, q)
  {
  }

  /** The delimiters outside, and opener and closer if characters are left, keep their order. */
  lemma KeptLaid(ds: seq<Delim>, inls: seq<Inline>, po: nat, pc: nat, use: nat, kept: seq<Delim>, olds: seq<nat>)
    requires Laid(ds, inls) && po < pc < |inls| && inls[po].Text? && inls[pc].Text?
    requires 0 < use <= |inls[po].literal| && use <= |inls[pc].literal|
    requires |kept| == |olds| && (forall j, k :: 0 <= j < k < |olds| ==> olds[j] < olds[k])
    requires forall k :: 0 <= k < |kept| ==>
              olds[k] < |ds| && kept[k] == ds[olds[k]] && Stays(inls, po, pc, use, Place(inls, kept[k].inl))
    ensures Laid(kept, Wrapped(inls, po, pc, use))
  {
    hide Place, HasText, Wrapped, NewPlace, Stays;
    ghost var ps := seq(|kept|, k requires 0 <= k < |kept| => NewPlaceOf(inls, po, pc, use, kept[k]));
    forall j, k | 0 <= j < k < |kept| ensures ps[j] < ps[k] {
      assert olds[j] < olds[k];
      NewPlaceGrows(inls, po, pc, use, Place(inls, kept[j].inl), Place(inls, kept[k].inl));
    }
    forall k | 0 <= k < |kept|
      ensures IsAt(Wrapped(inls, po, pc, use), ps[k], kept[k].inl)
      ensures IsStar(kept[k].c) ==> Wrapped(inls, po, pc, use)[ps[k]].literal != []
    {
      assert HasText(inls, ds[olds[k]]);
      StaysAt(inls, po, pc, use, kept[k]);
    }
    WrappedAt(inls, po, pc, use);
    LaidAt(kept, Wrapped(inls, po, pc, use), ps);
  }

  lemma OutsideStays(ds: seq<Delim>, inls: seq<Inline>, o: nat, i: nat, use: nat, k: nat)
    requires Laid(ds, inls) && o < i < |ds| && k < |ds|
    requires k < o || (k == o && |LiteralOf(inls, ds[o].inl)| > use)
              || (k == i && |LiteralOf(inls, ds[i].inl)| > use) || k > i
    ensures var po, pc := Place(inls, ds[o].inl), Place(inls, ds[i].inl);
            po < pc < |inls| && inls[po].Text? && inls[pc].Text? && Stays(inls, po, pc, use, Place(inls, ds[k].inl))
  {
    assert HasText(inls, ds[o]) && HasText(inls, ds[i]) && HasText(inls, ds[k]);
  }

  /** Which delimiters are left, as places in the old list. */
  function Olds(o: nat, i: nat, n: nat, keepOpener: bool, keepCloser: bool): (r: seq<nat>)
    requires o < i < n
    ensures var f := if keepOpener then o + 1 else o;
            |r| == f + (n - i) - (if keepCloser then 0 else 1)
            && forall k :: 0 <= k < |r| ==> r[k] == if k < f then k else k - f + (if keepCloser then i else i + 1)
  {
    var f := if keepOpener then o + 1 else o;
    var back := if keepCloser then i else i + 1;
    seq(f + (n - back), k requires 0 <= k => if k < f then k else k - f + back)
  }

  lemma InsertKeeps(st: State, o: nat, use: nat)
    requires Ready(st) && o < st.i < |st.ds| && IsStar(st.ds[o].c) && IsStar(st.ds[st.i].c)
    requires var ol, cl := |LiteralOf(st.inls, st.ds[o].inl)|, |LiteralOf(st.inls, st.ds[st.i].inl)|;
             use == UseDelims(ol, cl) && ol > 0 && cl > 0
    ensures var ol, cl := |LiteralOf(st.inls, st.ds[o].inl)|, |LiteralOf(st.inls, st.ds[st.i].inl)|;
            var olds, kept := Olds(o, st.i, |st.ds|, ol != use, cl != use), InsertEmph(st, o).ds;
            |kept| == |olds| && forall k :: 0 <= k < |kept| ==> kept[k] == st.ds[olds[k]]
  {
    hide Wrapped, Laid;
  }

  /** What is left of the delimiters keeps its texts. */
  lemma AllStay(ds: seq<Delim>, inls: seq<Inline>, o: nat, i: nat, use: nat)
    requires Laid(ds, inls) && o < i < |ds|
    requires use <= |LiteralOf(inls, ds[o].inl)| && use <= |LiteralOf(inls, ds[i].inl)|
    ensures var po, pc := Place(inls, ds[o].inl), Place(inls, ds[i].inl);
            && po < pc < |inls| && inls[po].Text? && inls[pc].Text?
            && var olds := Olds(o, i, |ds|, |LiteralOf(inls, ds[o].inl)| != use, |LiteralOf(inls, ds[i].inl)| != use);
               && (forall j, k :: 0 <= j < k < |olds| ==> olds[j] < olds[k])
               && forall k :: 0 <= k < |olds| ==>
                    olds[k] < |ds| && Stays(inls, po, pc, use, Place(inls, ds[olds[k]].inl))
  {
    var ol, cl := |LiteralOf(inls, ds[o].inl)|, |LiteralOf(inls, ds[i].inl)|;
    var olds := Olds(o, i, |ds|, ol != use, cl != use);
    BothStand(ds, inls, o, i);
    hide Laid, LiteralOf, Place, Stays, Olds;
    forall k | 0 <= k < |olds|
        ensures Stays(inls, Place(inls, ds[o].inl), Place(inls, ds[i].inl), use, Place(inls, ds[olds[k]].inl)) {
      OutsideStays(ds, inls, o, i, use, olds[k]);
    }
  }

  /** The texts of two delimiters. */
  lemma BothStand(ds: seq<Delim>, inls: seq<Inline>, o: nat, i: nat)
    requires Laid(ds, inls) && o < i < |ds|
    ensures var po, pc := Place(inls, ds[o].inl), Place(inls, ds[i].inl);
            && po < pc < |inls| && inls[po].Text? && inls[pc].Text?
            && LiteralOf(inls, ds[o].inl) == inls[po].literal && LiteralOf(inls, ds[i].inl) == inls[pc].literal
            && (IsStar(ds[o].c) ==> inls[po].literal != []) && (IsStar(ds[i].c) ==> inls[pc].literal != [])
  {
    assert HasText(inls, ds[o]) && HasText(inls, ds[i]);
    hide Place;
  }

  lemma WrapLaid(st: State, o: nat)
    requires Ready(st) && o < st.i < |st.ds| && IsStar(st.ds[o].c) && IsStar(st.ds[st.i].c)
    ensures Ready(InsertEmph(st, o))
  {
    var ds, inls, i := st.ds, st.inls, st.i;
    var po, pc := Place(inls, ds[o].inl), Place(inls, ds[i].inl);
    BothStand(ds, inls, o, i);
    var ol, cl := |inls[po].literal|, |inls[pc].literal|;
    UsesOneOrTwo(ol, cl);
    var use := UseDelims(ol, cl);
    InsertKeeps(st, o, use);
    var st' := InsertEmph(st, o);
    assert st'.inls == Wrapped(inls, po, pc, use) && st'.i <= |st'.ds|;
    hide Place, Wrapped, Stays, HasText, Laid, Olds, InsertEmph, UseDelims, LiteralOf;
    AllStay(ds, inls, o, i, use);
    KeptLaid(ds, inls, po, pc, use, st'.ds, Olds(o, i, |ds|, ol != use, cl != use));
  }

  function NewPlaceOf(inls: seq<Inline>, po: nat, pc: nat, use: nat, d: Delim): nat
    requires po < pc < |inls| && inls[po].Text? && inls[pc].Text? && use <= |inls[po].literal|
    requires use <= |inls[pc].literal|
    requires Stays(inls, po, pc, use, Place(inls, d.inl))
  {
    NewPlace(inls, po, pc, use, Place(inls, d.inl))
  }

  lemma StepReady(st: State)
    requires Ready(st) && st.i < |st.ds|
    ensures Ready(Step(st))
  {
    var d := st.ds[st.i];
    if Closes(d) {
      var o := FindOpener(st.ds, st.i, d.c);
      var choice := Choice(d.inl, if o.Some? then Some(st.ds[o.value].inl) else None);
      if IsStar(d.c) && o.Some? {
        WrapLaid(st.(choices := st.choices + [choice]), o.value);
      } else {
        DropLaid(st.ds, st.inls, st.i);
        if IsQuote(d.c) {
          SetTextLaid(st.ds, st.inls, d, RightQuote(d.c));
          var inls := SetText(st.inls, d.inl, RightQuote(d.c));
          DropLaid(st.ds, inls, st.i);
          if o.Some? {
            SetTextLaid(st.ds, inls, st.ds[o.value], LeftQuote(d.c));
          }
        }
      }
    }
    hide InsertEmph, SetText, Laid;
  }

  // ---------------------------------------------------------------- termination

  /** The characters that the closer still has. */
  function CloserLen(st: State): nat { if st.i < |st.ds| then |LiteralOf(st.inls, st.ds[st.i].inl)| else 0 }

  lemma InsertShortens(st: State, o: nat)
    requires Ready(st) && o < st.i < |st.ds| && IsStar(st.ds[o].c) && IsStar(st.ds[st.i].c)
    ensures var st' := InsertEmph(st, o);
            && st'.i <= |st'.ds|
            && (|st'.ds| - st'.i < |st.ds| - st.i
                || (|st'.ds| - st'.i == |st.ds| - st.i && CloserLen(st') < CloserLen(st)))
  {
    var inls := st.inls;
    var po, pc := Place(inls, st.ds[o].inl), Place(inls, st.ds[st.i].inl);
    assert HasText(inls, st.ds[o]) && HasText(inls, st.ds[st.i]);
    var openerLen, closerLen := |inls[po].literal|, |inls[pc].literal|;
    UsesOneOrTwo(openerLen, closerLen);
    var use := UseDelims(openerLen, closerLen);
    WrappedAt(inls, po, pc, use);
    var st' := InsertEmph(st, o);
    if closerLen > use {
      var e := po + |Shortened(inls[po], use)|;
      assert st'.ds[st'.i] == st.ds[st.i];
      PlaceIs(st'.inls, e + 1, st.ds[st.i].inl);
    }
  }

  lemma StepProgresses(st: State)
    requires Ready(st) && st.i < |st.ds|
    ensures var st' := Step(st);
            && st'.i <= |st'.ds|
            && (|st'.ds| - st'.i < |st.ds| - st.i
                || (|st'.ds| - st'.i == |st.ds| - st.i && CloserLen(st') < CloserLen(st)))
  {
    var d := st.ds[st.i];
    var o := FindOpener(st.ds, st.i, d.c);
    if Closes(d) && IsStar(d.c) && o.Some? {
      var choice := Choice(d.inl, Some(st.ds[o.value].inl));
      InsertShortens(st.(choices := st.choices + [choice]), o.value);
    }
    hide InsertEmph, SetText, LiteralOf;
  }

  /** Running to the end. */
  function Result(st: State): State
    requires Ready(st)
    decreases |st.ds| - st.i, CloserLen(st)
  {
    if st.i == |st.ds| then st
    else
      StepReady(st);
      StepProgresses(st);
      Result(Step(st))
  }

  // ---------------------------------------------------------------- conservation

  /** The delimiter characters in an inline: those still in the texts of stars, two for an emphasis, four for a
      strong one. */
  function Weight(x: Inline, stars: set<nat>): nat
    decreases x, 1
  {
    match x
    case Text(id, literal) => if id in stars then |literal| else 0
    case Emph(kids) => 2 + WeightAll(kids, stars)
    case Strong(kids) => 4 + WeightAll(kids, stars)
    case Other(_) => 0
  }

  function WeightAll(inls: seq<Inline>, stars: set<nat>): nat
    decreases inls, 0
  {
    if inls == [] then 0 else WeightAll(inls[..|inls| - 1], stars) + Weight(inls[|inls| - 1], stars)
  }

  lemma {:induction false} WeightConcat(a: seq<Inline>, b: seq<Inline>, stars: set<nat>)
    ensures WeightAll(a + b, stars) == WeightAll(a, stars) + WeightAll(b, stars)
  {
    hide Weight;
    if b == [] {
      assert a + b == a;
    } else {
      assert (a + b)[..|a + b| - 1] == a + b[..|b| - 1];
      WeightConcat(a, b[..|b| - 1], stars);
    }
  }

  lemma WeightOne(x: Inline, stars: set<nat>)
    ensures WeightAll([x], stars) == Weight(x, stars)
  {
    assert [x][..0] == [];
  }

  lemma WeightShortened(x: Inline, use: nat, stars: set<nat>)
    requires x.Text? && x.id in stars && use <= |x.literal|
    ensures WeightAll(Shortened(x, use), stars) == Weight(x, stars) - use
  {
    if |x.literal| > use {
      WeightOne(Text(x.id, x.literal[..|x.literal| - use]), stars);
    }
  }

  lemma WrapConserves(inls: seq<Inline>, po: nat, pc: nat, use: nat, stars: set<nat>)
    requires po < pc < |inls| && inls[po].Text? && inls[pc].Text? && use <= |inls[po].literal|
    requires use <= |inls[pc].literal|
    requires (use == 1 || use == 2) && inls[po].id in stars && inls[pc].id in stars
    ensures WeightAll(Wrapped(inls, po, pc, use), stars) == WeightAll(inls, stars)
  {
    var a, kids, b := inls[..po], inls[po + 1..pc], inls[pc + 1..];
    var o, c, emph := Shortened(inls[po], use), Shortened(inls[pc], use), if use == 1 then Emph(kids) else Strong(kids);
    assert inls == a + [inls[po]] + kids + [inls[pc]] + b;
    WeightConcat(a, [inls[po]], stars);
    WeightConcat(a + [inls[po]], kids, stars);
    WeightConcat(a + [inls[po]] + kids, [inls[pc]], stars);
    WeightConcat(a + [inls[po]] + kids + [inls[pc]], b, stars);
    WeightConcat(a, o, stars);
    WeightConcat(a + o, [emph], stars);
    WeightConcat(a + o + [emph], c, stars);
    WeightConcat(a + o + [emph] + c, b, stars);
    WeightOne(inls[po], stars);
    WeightOne(inls[pc], stars);
    WeightOne(emph, stars);
    WeightShortened(inls[po], use, stars);
    WeightShortened(inls[pc], use, stars);
    hide WeightAll, Shortened;
  }

  lemma SwapConserves(a: seq<Inline>, x: Inline, y: Inline, b: seq<Inline>, stars: set<nat>)
    requires Weight(x, stars) == Weight(y, stars)
    ensures WeightAll(a + [x] + b, stars) == WeightAll(a + [y] + b, stars)
  {
    hide WeightAll, Weight;
    WeightConcat(a, [x], stars);
    WeightConcat(a + [x], b, stars);
    WeightConcat(a, [y], stars);
    WeightConcat(a + [y], b, stars);
    WeightOne(x, stars);
    WeightOne(y, stars);
  }

  lemma WeighsNothing(id: nat, literal: seq<byte>, stars: set<nat>)
    requires id !in stars
    ensures Weight(Text(id, literal), stars) == 0
  {
  }

  lemma SetTextConserves(inls: seq<Inline>, id: nat, literal: seq<byte>, stars: set<nat>)
    requires id !in stars
    ensures WeightAll(SetText(inls, id, literal), stars) == WeightAll(inls, stars)
  {
    hide WeightAll, Weight;
    var p := Place(inls, id);
    if p < |inls| {
      var a, b, x := inls[..p], inls[p + 1..], inls[p];
      assert inls == a + [x] + b && SetText(inls, id, literal) == a + [Text(id, literal)] + b;
      assert x == Text(id, x.literal);
      WeighsNothing(id, literal, stars);
      WeighsNothing(id, x.literal, stars);
      SwapConserves(a, x, Text(id, literal), b, stars);
    }
  }

  /** The texts of the delimiters for emphasis, and not those of quotes. */
  predicate Marks(ds: seq<Delim>, stars: set<nat>) {
    forall k :: 0 <= k < |ds| ==> (ds[k].inl in stars <==> IsStar(ds[k].c))
  }

  lemma InsertConserves(st: State, o: nat, stars: set<nat>)
    requires Ready(st) && o < st.i < |st.ds| && IsStar(st.ds[o].c) && IsStar(st.ds[st.i].c) && Marks(st.ds, stars)
    ensures WeightAll(InsertEmph(st, o).inls, stars) == WeightAll(st.inls, stars) && Marks(InsertEmph(st, o).ds, stars)
  {
    hide WeightAll, Wrapped;
    var inls := st.inls;
    var po, pc := Place(inls, st.ds[o].inl), Place(inls, st.ds[st.i].inl);
    BothStand(st.ds, inls, o, st.i);
    var ol, cl := |inls[po].literal|, |inls[pc].literal|;
    UsesOneOrTwo(ol, cl);
    var use := UseDelims(ol, cl);
    InsertKeeps(st, o, use);
    assert InsertEmph(st, o).inls == Wrapped(inls, po, pc, use);
    hide InsertEmph, UseDelims, Place, LiteralOf, Laid, Olds;
    WrapConserves(inls, po, pc, use, stars);
    MarksStay(st.ds, InsertEmph(st, o).ds, Olds(o, st.i, |st.ds|, ol != use, cl != use), stars);
  }

  lemma MarksStay(ds: seq<Delim>, kept: seq<Delim>, olds: seq<nat>, stars: set<nat>)
    requires Marks(ds, stars) && |kept| == |olds|
    requires forall k :: 0 <= k < |kept| ==> olds[k] < |ds| && kept[k] == ds[olds[k]]
    ensures Marks(kept, stars)
  {
  }

  lemma StepConserves(st: State, stars: set<nat>)
    requires Ready(st) && st.i < |st.ds| && Marks(st.ds, stars)
    ensures WeightAll(Step(st).inls, stars) == WeightAll(st.inls, stars) && Marks(Step(st).ds, stars)
  {
    hide WeightAll, Laid, Place, SetText, InsertEmph;
    var d := st.ds[st.i];
    if Closes(d) {
      var o := FindOpener(st.ds, st.i, d.c);
      if IsQuote(d.c) {
        SetTextConserves(st.inls, d.inl, RightQuote(d.c), stars);
        if o.Some? {
          SetTextConserves(SetText(st.inls, d.inl, RightQuote(d.c)), st.ds[o.value].inl, LeftQuote(d.c), stars);
        }
      } else if o.Some? {
        InsertConserves(st.(choices := st.choices + [Choice(d.inl, Some(st.ds[o.value].inl))]), o.value, stars);
      }
    }
  }

  /** No delimiter character is lost or made up: all there were at the start are still there as text, or stand
      for an emphasis, two for each plain one and four for each strong one. */
  lemma {:induction false} Conserved(st: State, stars: set<nat>)
    requires Ready(st) && Marks(st.ds, stars)
    ensures WeightAll(Result(st).inls, stars) == WeightAll(st.inls, stars)
    decreases |st.ds| - st.i, CloserLen(st)
  {
    if st.i < |st.ds| {
      StepReady(st);
      StepProgresses(st);
      StepConserves(st, stars);
      hide Step, WeightAll, Laid;
      Conserved(Step(st), stars);
    }
  }

  /** In every state on the way every delimiter for emphasis has a character left. */
  lemma {:induction false} NoneIsEmpty(st: State)
    requires Ready(st)
    ensures Ready(Result(st)) && Result(st).i == |Result(st).ds|
    ensures forall d :: d in Result(st).ds && IsStar(d.c) ==> LiteralOf(Result(st).inls, d.inl) != []
    decreases |st.ds| - st.i, CloserLen(st)
  {
    if st.i < |st.ds| {
      StepReady(st);
      StepProgresses(st);
      hide Step;
      NoneIsEmpty(Step(st));
    } else {
      forall d | d in st.ds && IsStar(d.c) ensures LiteralOf(st.inls, d.inl) != [] {
        var k :| 0 <= k < |st.ds| && st.ds[k] == d;
        assert HasText(st.inls, st.ds[k]);
      }
    }
  }
}
