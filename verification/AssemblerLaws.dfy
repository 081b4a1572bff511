/** The assembler's first pass as a property of the list of its calls. */
module AssemblerLaws {
  import opened Words
  import opened Encoder
  import opened Assembler
  import opened AssemblerProofs

  // ---- what a list of calls says ----

  /** The section that was opened last. */
  function LastOpened(items: seq<Item>): MaybeSection {
    if items == [] then Nowhere
    else
      var last := items[|items| - 1];
      if last == OpenSection(TextName) then In(Text)
      else if last == OpenSection(DataName) then In(Data)
      else LastOpened(items[..|items| - 1])
  }

  /** The data items, one after the other. */
  function DataOf(items: seq<Item>): seq<Byte> {
    if items == [] then []
    else
      var last := items[|items| - 1];
      DataOf(items[..|items| - 1]) + if last.Bytes? then last.bytes else []
  }

  /** The instructions, numbered from address zero in steps of four. */
  function TextOf(items: seq<Item>): seq<AsmInstr> {
    if items == [] then []
    else
      var before, last := TextOf(items[..|items| - 1]), items[|items| - 1];
      if last.Emit? then before + [AsmInstr(last.mnemonic, last.operands, 4 * |before|)] else before
  }

  /** A call that is in order after the calls before it. */
  predicate Allowed(before: seq<Item>, item: Item) {
    match item
    case OpenSection(name) => !name.OtherName? && item !in before
    case DefineLabel(_) => LastOpened(before) != Nowhere && item !in before
    case Emit(_, _) => LastOpened(before) == In(Text)
    case Bytes(_) => LastOpened(before) == In(Data)
  }

  /** The error of a call that is not in order. */
  function ErrorOf(before: seq<Item>, item: Item): AsmError {
    match item
    case OpenSection(name) => if name.OtherName? then UnknownSection else SectionTwice
    case DefineLabel(_) => if LastOpened(before) == Nowhere then WrongSection else LabelTwice
    case _ => WrongSection
  }

  // ---- what the pass keeps ----

  /** The state is what the calls say. */
  ghost predicate Reflects(s: State, items: seq<Item>) {
    && s.current == LastOpened(items) && s.data == DataOf(items) && s.instructions == TextOf(items)
    && s.textOffset == 4 * |s.instructions|
    && (Text in s.openSections <==> OpenSection(TextName) in items)
    && (Data in s.openSections <==> OpenSection(DataName) in items)
    && (forall l :: l in s.labels <==> DefineLabel(l) in items)
  }

  lemma InLonger(items: seq<Item>, item: Item)
    requires items != []
    ensures item in items <==> item in items[..|items| - 1] || item == items[|items| - 1]
  {
    assert items == items[..|items| - 1] + [items[|items| - 1]];
  }

  lemma ApplyReflects(s: State, items: seq<Item>)
    requires items != [] && Reflects(s, items[..|items| - 1]) && Apply(s, items[|items| - 1]).Good?
    ensures Reflects(Apply(s, items[|items| - 1]).value, items)
  {
    var before, item := items[..|items| - 1], items[|items| - 1];
    var after := Apply(s, item).value;
    InLonger(items, OpenSection(TextName));
    InLonger(items, OpenSection(DataName));
    forall l: string
      ensures l in after.labels <==> DefineLabel(l) in items
    {
      InLonger(items, DefineLabel(l));
    }
  }

  lemma {:induction false} AssembleReflects(items: seq<Item>)
    requires Assemble(items).Good?
    ensures Reflects(Assemble(items).value, items)
    decreases |items|
  {
    hide Reflects, Apply;
    if items == [] {
      InitialReflects();
    } else {
      AssembleReflects(items[..|items| - 1]);
      ApplyReflects(Assemble(items[..|items| - 1]).value, items);
    }
  }

  lemma InitialReflects()
    ensures Reflects(INITIAL, [])
  {
  }

  /** Whether a call is accepted, and with which error it is refused. */
  lemma ApplyExactly(s: State, before: seq<Item>, item: Item)
    requires Reflects(s, before)
    ensures if Allowed(before, item) then Apply(s, item).Good? else Apply(s, item) == Bad(ErrorOf(before, item))
  {
    hide LastOpened, DataOf, TextOf;
  }

  /**
    A program assembles exactly when every section is known and opened once, every label
    defined once and inside a section, and every instruction and data item stands in its
    section. The result is what the calls say.
  */
  lemma {:induction false} AssembleExactly(items: seq<Item>)
    ensures Assemble(items).Good? <==> forall j :: 0 <= j < |items| ==> Allowed(items[..j], items[j])
    ensures Assemble(items).Good? ==>
      && Assemble(items).value.data == DataOf(items)
      && Assemble(items).value.instructions == TextOf(items)
    decreases |items|
  {
    hide Apply, Allowed, Reflects;
    if items != [] {
      var front, n := items[..|items| - 1], |items| - 1;
      AssembleExactly(front);
      AllowedFront(items);
      if Assemble(front).Good? {
        AssembleReflects(front);
        ApplyExactly(Assemble(front).value, front, items[n]);
      }
      if Assemble(items).Good? {
        AssembleReflects(items);
        ReflectsContents(Assemble(items).value, items);
      }
    }
  }

  lemma ReflectsContents(s: State, items: seq<Item>)
    requires Reflects(s, items)
    ensures s.current == LastOpened(items) && s.data == DataOf(items) && s.instructions == TextOf(items)
    ensures s.textOffset == 4 * |s.instructions|
  {
  }

  lemma AllowedFront(items: seq<Item>)
    requires items != []
    ensures var (front, n) := (items[..|items| - 1], |items| - 1);
      (forall j :: 0 <= j < |items| ==> Allowed(items[..j], items[j]))
      <==> (forall j :: 0 <= j < n ==> Allowed(front[..j], front[j])) && Allowed(front, items[n])
  {
    hide Allowed;
    var front, n := items[..|items| - 1], |items| - 1;
    assert forall j :: 0 <= j < n ==> front[..j] == items[..j] && front[j] == items[j];
  }

  /** The first call that is not in order is the one whose error is raised. */
  lemma FirstError(items: seq<Item>, j: nat)
    requires j < |items| && !Allowed(items[..j], items[j])
    requires forall k :: 0 <= k < j ==> Allowed(items[..k], items[k])
    ensures Assemble(items) == Bad(ErrorOf(items[..j], items[j]))
  {
    hide Apply, Allowed, Reflects, ErrorOf;
    var before, upto := items[..j], items[..j + 1];
    assert forall k :: 0 <= k < j ==> before[..k] == items[..k] && before[k] == items[k];
    AssembleExactly(before);
    AssembleReflects(before);
    ApplyExactly(Assemble(before).value, before, items[j]);
    assert upto[..j] == before;
    AssembleFails(items, j + 1);
  }

  /**
    A label, text or data, is recorded in the section opened last before it, at the size
    of that section at that point.
  */
  lemma LabelExactly(items: seq<Item>, j: nat)
    requires Assemble(items).Good? && j < |items| && items[j].DefineLabel?
    ensures items[j].symbol in Assemble(items).value.labels
    ensures var (before, info) := (items[..j], Assemble(items).value.labels[items[j].symbol]);
      && LastOpened(before) == In(info.section)
      && info.offset == if info.section == Text then 4 * |TextOf(before)| else |DataOf(before)|
  {
    hide Reflects, LastOpened, DataOf, TextOf;
    AssembleExtends(items, j);
    AssembleExtends(items, j + 1);
    assert items[..j + 1][..j] == items[..j];
    var s := Assemble(items[..j]).value;
    AssembleReflects(items[..j]);
    ReflectsContents(s, items[..j]);
    assert Assemble(items[..j + 1]) == Apply(s, items[j]);
  }
}
