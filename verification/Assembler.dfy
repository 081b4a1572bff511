/** The assembler's first pass: sections, PCs and labels. */
module Assembler {
  import opened Words
  import opened Encoder

  datatype SectionName = TextName | DataName | OtherName

  /** One call of the assembler's language. */
  datatype Item =
    | OpenSection(name: SectionName)
    | DefineLabel(symbol: string)
    | Emit(mnemonic: Mnemonic, operands: seq<Operand>)
    | Bytes(bytes: seq<Byte>)

  datatype MaybeSection = Nowhere | In(section: Section)

  datatype State = State(
    current: MaybeSection,
    openSections: set<Section>,
    textOffset: nat,
    labels: Labels,
    instructions: seq<AsmInstr>,
    data: seq<Byte>)

  const INITIAL := State(Nowhere, {}, 0, map[], [], [])

  function OffsetIn(s: State, section: Section): nat {
    if section == Text then s.textOffset else |s.data|
  }

  function Apply(s: State, item: Item): Checked<State> {
    match item
    case OpenSection(name) =>
      :- Demand(!name.OtherName?, UnknownSection);
      var section := if name.TextName? then Text else Data;
      :- Demand(section !in s.openSections, SectionTwice);
      Good(s.(current := In(section), openSections := s.openSections + {section}))
    case DefineLabel(symbol) =>
      :- Demand(s.current.In?, WrongSection);
      :- Demand(symbol !in s.labels, LabelTwice);
      Good(s.(labels := s.labels[symbol := LabelInfo(s.current.section, OffsetIn(s, s.current.section))]))
    case Emit(mnemonic, operands) =>
      :- Demand(s.current == In(Text), WrongSection);
      Good(s.(instructions := s.instructions + [AsmInstr(mnemonic, operands, s.textOffset)],
              textOffset := s.textOffset + 4))
    case Bytes(bytes) =>
      :- Demand(s.current == In(Data), WrongSection);
      Good(s.(data := s.data + bytes))
  }

  function Assemble(items: seq<Item>): Checked<State> {
    if items == [] then Good(INITIAL)
    else
      var s :- Assemble(items[..|items| - 1]);
      Apply(s, items[|items| - 1])
  }

  /** The words of the instructions, or the first encoding error. */
  function EncodeAll(labels: Labels, instructions: seq<AsmInstr>): Checked<seq<nat>> {
    if instructions == [] then Good([])
    else
      var words :- EncodeAll(labels, instructions[..|instructions| - 1]);
      var word :- Encode(labels, instructions[|instructions| - 1]);
      Good(words + [word])
  }

  class TIAssembler {
    var CurrentSection: MaybeSection
    var OpenedSections: set<Section>
    var TextOffset: nat
    var Labels: map<string, LabelInfo>
    var Instructions: seq<AsmInstr>
    var DataBytes: seq<Byte>

    constructor ()
      ensures View() == INITIAL
    {
      CurrentSection := Nowhere;
      OpenedSections := {};
      TextOffset := 0;
      Labels := map[];
      Instructions := [];
      DataBytes := [];
    }

    ghost function View(): State
      reads this
    {
      State(CurrentSection, OpenedSections, TextOffset, Labels, Instructions, DataBytes)
    }

    method RequireSection(expected: Section) returns (r: Requirement)
      ensures r == Demand(CurrentSection == In(expected), WrongSection)
    {
      return if CurrentSection == In(expected) then Met else Unmet(WrongSection);
    }

    /** A raised error leaves the assembler as it was. */
    ghost predicate Did(before: State, item: Item, r: Requirement)
      reads this
    {
      match Apply(before, item)
      case Good(after) => r == Met && View() == after
      case Bad(error) => r == Unmet(error) && View() == before
    }

    method Open(name: SectionName) returns (r: Requirement)
      modifies this
      ensures Did(old(View()), OpenSection(name), r)
    {
      if name.OtherName? {
        return Unmet(UnknownSection);
      }
      var section := if name.TextName? then Text else Data;
      if section in OpenedSections {
        return Unmet(SectionTwice);
      }
      OpenedSections := OpenedSections + {section};
      CurrentSection := In(section);
      return Met;
    }

    method Label(symbol: string) returns (r: Requirement)
      modifies this
      ensures Did(old(View()), DefineLabel(symbol), r)
    {
      if CurrentSection.Nowhere? {
        return Unmet(WrongSection);
      }
      if symbol in Labels {
        return Unmet(LabelTwice);
      }
      var offset := if CurrentSection == In(Text) then TextOffset else |DataBytes|;
      Labels := Labels[symbol := LabelInfo(CurrentSection.section, offset)];
      return Met;
    }

    method Instruction(mnemonic: Mnemonic, operands: seq<Operand>) returns (r: Requirement)
      modifies this
      ensures Did(old(View()), Emit(mnemonic, operands), r)
    {
      r := RequireSection(Text);
      if r.Unmet? {
        return;
      }
      Instructions := Instructions + [AsmInstr(mnemonic, operands, TextOffset)];
      TextOffset := TextOffset + 4;
      return Met;
    }

    method DataItem(bytes: seq<Byte>) returns (r: Requirement)
      modifies this
      ensures Did(old(View()), Bytes(bytes), r)
    {
      r := RequireSection(Data);
      if r.Unmet? {
        return;
      }
      DataBytes := DataBytes + bytes;
      return Met;
    }

    /** Run a whole program. The first error ends it, with the state that the `done` calls before it reached. */
    method Run(items: seq<Item>) returns (r: Requirement, ghost done: nat)
      requires View() == INITIAL
      modifies this
      ensures match Assemble(items)
        case Good(s) => r == Met && View() == s
        case Bad(error) =>
          && r == Unmet(error) && done < |items|
          && Assemble(items[..done]) == Good(View()) && Assemble(items[..done + 1]) == Bad(error)
    {
      r, done := Met, 0;
      var k := 0;
      while k < |items|
        invariant 0 <= k <= |items|
        invariant r == Met && Assemble(items[..k]) == Good(View())
      {
        assert items[..k + 1][..k] == items[..k];
        match items[k] {
          case OpenSection(name) => r := Open(name);
          case DefineLabel(symbol) => r := Label(symbol);
          case Emit(mnemonic, operands) => r := Instruction(mnemonic, operands);
          case Bytes(bytes) => r := DataItem(bytes);
        }
        if r.Unmet? {
          AssembleFails(items, k + 1);
          done := k;
          return;
        }
        k := k + 1;
      }
      assert items[..|items|] == items;
    }
  }

  lemma {:induction false} AssembleFails(items: seq<Item>, k: nat)
    requires k <= |items| && Assemble(items[..k]).Bad?
    ensures Assemble(items) == Assemble(items[..k])
    decreases |items|
  {
    if k == |items| {
      assert items[..k] == items;
    } else {
      assert items[..|items| - 1][..k] == items[..k];
      AssembleFails(items[..|items| - 1], k);
    }
  }
}
