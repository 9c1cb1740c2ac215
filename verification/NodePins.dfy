/** Node references inside template configurations: one walk collects them, another rewrites the
    references to a dead node. The two walks do not visit quite the same strings.

    A string is a sequence of pieces: plain text and pins (`model@NODE`). A node name is the
    sequence of its hyphen-separated parts, because a word boundary ends a match before a hyphen. */
module NodePins {
  import opened Prelude

  type Name = seq<string>

  datatype Piece = Text(text: string) | Pin(model: string, node: Name)

  /** A configuration value. `Bare` is a string that is exactly a node name; the fields of a
      dictionary are in order. */
  datatype Cfg =
    | Str(pieces: seq<Piece>)
    | Bare(node: Name)
    | List(items: seq<Cfg>)
    | Dict(fields: seq<Field>)
    | Scalar

  datatype Field = Field(key: string, value: Cfg)

  predicate IsRefKey(k: string) { k == "endpoint" || k == "node" }

  // ------------------------------------------------------------ collecting

  function PiecePins(pieces: seq<Piece>): set<Name> {
    if pieces == [] then {}
    else (if pieces[0].Pin? then {pieces[0].node} else {}) + PiecePins(pieces[1..])
  }

  /** All node references of a value. */
  function Pins(c: Cfg): set<Name>
    decreases c
  {
    match c
    case Str(pieces) => PiecePins(pieces)
    case List(items) => ItemPins(items)
    case Dict(fields) => FieldsPins(fields)
    case _ => {}
  }

  function ItemPins(items: seq<Cfg>): set<Name>
    decreases items
  {
    if items == [] then {} else Pins(items[0]) + ItemPins(items[1..])
  }

  /** A reference key with a string counts only as a bare name; the string is not searched. */
  function FieldPins(f: Field): set<Name>
    decreases f
  {
    if IsRefKey(f.key) && f.value.Bare? then {f.value.node}
    else if IsRefKey(f.key) && f.value.Str? then {}
    else Pins(f.value)
  }

  function FieldsPins(fields: seq<Field>): set<Name>
    decreases fields
  {
    if fields == [] then {} else FieldPins(fields[0]) + FieldsPins(fields[1..])
  }

  // ------------------------------------------------------------ rewriting

  predicate Extends(n: Name, d: Name) { |d| <= |n| && n[..|d|] == d }

  /** The pattern for a dead name also matches the beginning of a longer hyphenated name. */
  function RepinName(n: Name, dead: Name, alive: Name): Name {
    if Extends(n, dead) then alive + n[|dead|..] else n
  }

  function RepinPieces(pieces: seq<Piece>, dead: Name, alive: Name): seq<Piece> {
    if pieces == [] then []
    else
      [if pieces[0].Pin? then pieces[0].(node := RepinName(pieces[0].node, dead, alive)) else pieces[0]]
      + RepinPieces(pieces[1..], dead, alive)
  }

  /** Rewrites the values of dictionaries at any depth; a string that is an item of a list, or the
      whole configuration, is left as it is. */
  function Repin(c: Cfg, dead: Name, alive: Name): Cfg
    decreases c
  {
    match c
    case List(items) => List(RepinItems(items, dead, alive))
    case Dict(fields) => Dict(RepinFields(fields, dead, alive))
    case _ => c
  }

  function RepinItems(items: seq<Cfg>, dead: Name, alive: Name): seq<Cfg>
    decreases items
  {
    if items == [] then [] else [Repin(items[0], dead, alive)] + RepinItems(items[1..], dead, alive)
  }

  function RepinField(f: Field, dead: Name, alive: Name): Field
    decreases f
  {
    if IsRefKey(f.key) && f.value == Bare(dead) then Field(f.key, Bare(alive))
    else if f.value.Str? then Field(f.key, Str(RepinPieces(f.value.pieces, dead, alive)))
    else Field(f.key, Repin(f.value, dead, alive))
  }

  function RepinFields(fields: seq<Field>, dead: Name, alive: Name): seq<Field>
    decreases fields
  {
    if fields == [] then [] else [RepinField(fields[0], dead, alive)] + RepinFields(fields[1..], dead, alive)
  }

  function RepinAll(c: Cfg, dead: seq<Name>, alive: Name): (r: Cfg)
    ensures c.Dict? ==> r.Dict?
  {
    if dead == [] then c else Repin(RepinAll(c, dead[..|dead| - 1], alive), dead[|dead| - 1], alive)
  }

  // ------------------------------------------------------------ what the rewrite can reach

  /** The references out of reach: in strings that are list items or the whole value. */
  function OutOfReach(c: Cfg): set<Name>
    decreases c
  {
    match c
    case Str(pieces) => PiecePins(pieces)
    case List(items) => OutOfReachItems(items)
    case Dict(fields) => OutOfReachFields(fields)
    case _ => {}
  }

  function OutOfReachItems(items: seq<Cfg>): set<Name>
    decreases items
  {
    if items == [] then {} else OutOfReach(items[0]) + OutOfReachItems(items[1..])
  }

  function OutOfReachFields(fields: seq<Field>): set<Name>
    decreases fields
  {
    if fields == [] then {}
    else (if fields[0].value.Str? then {} else OutOfReach(fields[0].value)) + OutOfReachFields(fields[1..])
  }

  /** The collected references in strings that the rewrite visits. */
  function TextReach(c: Cfg): set<Name>
    decreases c
  {
    match c
    case List(items) => TextReachItems(items)
    case Dict(fields) => TextReachFields(fields)
    case _ => {}
  }

  function TextReachItems(items: seq<Cfg>): set<Name>
    decreases items
  {
    if items == [] then {} else TextReach(items[0]) + TextReachItems(items[1..])
  }

  function TextReachField(f: Field): set<Name>
    decreases f
  {
    if f.value.Str? then (if IsRefKey(f.key) then {} else PiecePins(f.value.pieces))
    else TextReach(f.value)
  }

  function TextReachFields(fields: seq<Field>): set<Name>
    decreases fields
  {
    if fields == [] then {} else TextReachField(fields[0]) + TextReachFields(fields[1..])
  }

  /** The bare references under reference keys; the rewrite visits all of them. */
  function BareReach(c: Cfg): set<Name>
    decreases c
  {
    match c
    case List(items) => BareReachItems(items)
    case Dict(fields) => BareReachFields(fields)
    case _ => {}
  }

  function BareReachItems(items: seq<Cfg>): set<Name>
    decreases items
  {
    if items == [] then {} else BareReach(items[0]) + BareReachItems(items[1..])
  }

  function BareReachField(f: Field): set<Name>
    decreases f
  {
    if f.value.Bare? then (if IsRefKey(f.key) then {f.value.node} else {})
    else BareReach(f.value)
  }

  function BareReachFields(fields: seq<Field>): set<Name>
    decreases fields
  {
    if fields == [] then {} else BareReachField(fields[0]) + BareReachFields(fields[1..])
  }

  lemma {:induction false} PinsSplit(c: Cfg)
    ensures Pins(c) == TextReach(c) + BareReach(c) + OutOfReach(c)
    decreases c
  {
    match c
    case List(items) => ItemPinsSplit(items);
    case Dict(fields) => FieldsPinsSplit(fields);
    case _ =>
  }

  lemma {:induction false} ItemPinsSplit(items: seq<Cfg>)
    ensures ItemPins(items) == TextReachItems(items) + BareReachItems(items) + OutOfReachItems(items)
    decreases items
  {
    if items != [] {
      PinsSplit(items[0]);
      ItemPinsSplit(items[1..]);
    }
  }

  lemma {:induction false} FieldsPinsSplit(fields: seq<Field>)
    ensures FieldsPins(fields) == TextReachFields(fields) + BareReachFields(fields) + OutOfReachFields(fields)
    decreases fields
  {
    if fields != [] {
      PinsSplit(fields[0].value);
      FieldsPinsSplit(fields[1..]);
    }
  }

  // ------------------------------------------------------------ one rewrite

  /** Replacing references that equal the dead name, and no others. */
  function RenameName(n: Name, dead: Name, alive: Name): Name { if n == dead then alive else n }

  function RepinSet(names: set<Name>, dead: Name, alive: Name): set<Name> {
    set n | n in names :: RepinName(n, dead, alive)
  }

  function RenameSet(names: set<Name>, dead: Name, alive: Name): set<Name> {
    set n | n in names :: RenameName(n, dead, alive)
  }

  lemma SetsOfUnion(a: set<Name>, b: set<Name>, dead: Name, alive: Name)
    ensures RepinSet(a + b, dead, alive) == RepinSet(a, dead, alive) + RepinSet(b, dead, alive)
    ensures RenameSet(a + b, dead, alive) == RenameSet(a, dead, alive) + RenameSet(b, dead, alive)
  {
  }

  lemma {:induction false} RepinPiecesPins(pieces: seq<Piece>, dead: Name, alive: Name)
    ensures PiecePins(RepinPieces(pieces, dead, alive)) == RepinSet(PiecePins(pieces), dead, alive)
  {
    if pieces != [] {
      RepinPiecesPins(pieces[1..], dead, alive);
      var head: set<Name> := if pieces[0].Pin? then {pieces[0].node} else {};
      SetsOfUnion(head, PiecePins(pieces[1..]), dead, alive);
      assert RepinPieces(pieces, dead, alive)[1..] == RepinPieces(pieces[1..], dead, alive);
    }
  }

  /** One rewrite turns every reference within reach into its image and changes no other. */
  lemma {:induction false} RepinReach(c: Cfg, dead: Name, alive: Name)
    ensures TextReach(Repin(c, dead, alive)) == RepinSet(TextReach(c), dead, alive)
    ensures BareReach(Repin(c, dead, alive)) == RenameSet(BareReach(c), dead, alive)
    ensures OutOfReach(Repin(c, dead, alive)) == OutOfReach(c)
    decreases c
  {
    match c
    case List(items) => RepinItemsReach(items, dead, alive);
    case Dict(fields) => RepinFieldsReach(fields, dead, alive);
    case _ =>
  }

  lemma {:induction false} RepinItemsReach(items: seq<Cfg>, dead: Name, alive: Name)
    ensures TextReachItems(RepinItems(items, dead, alive)) == RepinSet(TextReachItems(items), dead, alive)
    ensures BareReachItems(RepinItems(items, dead, alive)) == RenameSet(BareReachItems(items), dead, alive)
    ensures OutOfReachItems(RepinItems(items, dead, alive)) == OutOfReachItems(items)
    decreases items
  {
    if items != [] {
      RepinReach(items[0], dead, alive);
      RepinItemsReach(items[1..], dead, alive);
      SetsOfUnion(TextReach(items[0]), TextReachItems(items[1..]), dead, alive);
      SetsOfUnion(BareReach(items[0]), BareReachItems(items[1..]), dead, alive);
      assert RepinItems(items, dead, alive)[1..] == RepinItems(items[1..], dead, alive);
    }
  }

  lemma {:induction false} RepinFieldReach(f: Field, dead: Name, alive: Name)
    ensures TextReachField(RepinField(f, dead, alive)) == RepinSet(TextReachField(f), dead, alive)
    ensures BareReachField(RepinField(f, dead, alive)) == RenameSet(BareReachField(f), dead, alive)
    ensures f.value.Str? <==> RepinField(f, dead, alive).value.Str?
    ensures !f.value.Str? ==> OutOfReach(RepinField(f, dead, alive).value) == OutOfReach(f.value)
    decreases f
  {
    match f.value
    case Str(pieces) => RepinPiecesPins(pieces, dead, alive);
    case Bare(node) =>
    case _ => RepinReach(f.value, dead, alive);
  }

  lemma {:induction false} RepinFieldsReach(fields: seq<Field>, dead: Name, alive: Name)
    ensures TextReachFields(RepinFields(fields, dead, alive)) == RepinSet(TextReachFields(fields), dead, alive)
    ensures BareReachFields(RepinFields(fields, dead, alive)) == RenameSet(BareReachFields(fields), dead, alive)
    ensures OutOfReachFields(RepinFields(fields, dead, alive)) == OutOfReachFields(fields)
    decreases fields
  {
    if fields != [] {
      RepinFieldReach(fields[0], dead, alive);
      RepinFieldsReach(fields[1..], dead, alive);
      SetsOfUnion(TextReachField(fields[0]), TextReachFields(fields[1..]), dead, alive);
      SetsOfUnion(BareReachField(fields[0]), BareReachFields(fields[1..]), dead, alive);
      assert RepinFields(fields, dead, alive)[1..] == RepinFields(fields[1..], dead, alive);
    }
  }

  // ------------------------------------------------------------ when a rewrite does no harm

  /** All pins in the strings the rewrite visits, collected ones or not. */
  function Visited(c: Cfg): set<Name>
    decreases c
  {
    match c
    case List(items) => VisitedItems(items)
    case Dict(fields) => VisitedFields(fields)
    case _ => {}
  }

  function VisitedItems(items: seq<Cfg>): set<Name>
    decreases items
  {
    if items == [] then {} else Visited(items[0]) + VisitedItems(items[1..])
  }

  function VisitedFields(fields: seq<Field>): set<Name>
    decreases fields
  {
    if fields == [] then {}
    else (if fields[0].value.Str? then PiecePins(fields[0].value.pieces) else Visited(fields[0].value))
         + VisitedFields(fields[1..])
  }

  /** No name of the set is the dead name followed by further hyphenated parts. */
  ghost predicate Unextended(names: set<Name>, dead: Name) {
    forall n :: n in names && Extends(n, dead) ==> n == dead
  }

  function RenamePieces(pieces: seq<Piece>, dead: Name, alive: Name): seq<Piece> {
    if pieces == [] then []
    else
      [if pieces[0].Pin? then pieces[0].(node := RenameName(pieces[0].node, dead, alive)) else pieces[0]]
      + RenamePieces(pieces[1..], dead, alive)
  }

  /** What the rewrite is for: at the places it visits, references to the dead node become
      references to the live one and everything else stays. */
  function Rename(c: Cfg, dead: Name, alive: Name): Cfg
    decreases c
  {
    match c
    case List(items) => List(RenameItems(items, dead, alive))
    case Dict(fields) => Dict(RenameFields(fields, dead, alive))
    case _ => c
  }

  function RenameItems(items: seq<Cfg>, dead: Name, alive: Name): seq<Cfg>
    decreases items
  {
    if items == [] then [] else [Rename(items[0], dead, alive)] + RenameItems(items[1..], dead, alive)
  }

  function RenameField(f: Field, dead: Name, alive: Name): Field
    decreases f
  {
    if IsRefKey(f.key) && f.value == Bare(dead) then Field(f.key, Bare(alive))
    else if f.value.Str? then Field(f.key, Str(RenamePieces(f.value.pieces, dead, alive)))
    else Field(f.key, Rename(f.value, dead, alive))
  }

  function RenameFields(fields: seq<Field>, dead: Name, alive: Name): seq<Field>
    decreases fields
  {
    if fields == [] then [] else [RenameField(fields[0], dead, alive)] + RenameFields(fields[1..], dead, alive)
  }

  lemma UnextendedUnion(a: set<Name>, b: set<Name>, dead: Name)
    ensures Unextended(a + b, dead) <==> Unextended(a, dead) && Unextended(b, dead)
  {
  }

  lemma DifferentFronts(a: Name, b: Name, rest: Name)
    requires a != b
    ensures a + rest != b + rest
  {
    if |a| == |b| {
      var i :| 0 <= i < |a| && a[i] != b[i];
      assert (a + rest)[i] != (b + rest)[i];
    }
  }

  lemma NameHarm(n: Name, dead: Name, alive: Name)
    requires dead != alive
    ensures RepinName(n, dead, alive) == RenameName(n, dead, alive) <==> (Extends(n, dead) ==> n == dead)
  {
    if Extends(n, dead) {
      var rest := n[|dead|..];
      assert n == dead + rest;
      if n == dead {
        assert alive + rest == alive;
      } else {
        DifferentFronts(alive, dead, rest);
      }
    }
  }

  lemma {:induction false} PiecesHarm(pieces: seq<Piece>, dead: Name, alive: Name)
    requires dead != alive
    ensures RepinPieces(pieces, dead, alive) == RenamePieces(pieces, dead, alive)
            <==> Unextended(PiecePins(pieces), dead)
  {
    if pieces != [] {
      PiecesHarm(pieces[1..], dead, alive);
      var head: set<Name> := if pieces[0].Pin? then {pieces[0].node} else {};
      UnextendedUnion(head, PiecePins(pieces[1..]), dead);
      if pieces[0].Pin? {
        NameHarm(pieces[0].node, dead, alive);
      }
      assert RepinPieces(pieces, dead, alive)[1..] == RepinPieces(pieces[1..], dead, alive);
      assert RenamePieces(pieces, dead, alive)[1..] == RenamePieces(pieces[1..], dead, alive);
    }
  }

  /** A rewrite does exactly that if and only if no pin in a string it visits extends the dead name:
      otherwise a reference to another node is damaged. */
  lemma {:induction false} RepinIsRename(c: Cfg, dead: Name, alive: Name)
    requires dead != alive
    ensures Repin(c, dead, alive) == Rename(c, dead, alive) <==> Unextended(Visited(c), dead)
    decreases c
  {
    match c
    case List(items) => ItemsHarm(items, dead, alive);
    case Dict(fields) => FieldsHarm(fields, dead, alive);
    case _ =>
  }

  lemma {:induction false} ItemsHarm(items: seq<Cfg>, dead: Name, alive: Name)
    requires dead != alive
    ensures RepinItems(items, dead, alive) == RenameItems(items, dead, alive) <==> Unextended(VisitedItems(items), dead)
    decreases items
  {
    if items != [] {
      RepinIsRename(items[0], dead, alive);
      ItemsHarm(items[1..], dead, alive);
      UnextendedUnion(Visited(items[0]), VisitedItems(items[1..]), dead);
      assert RepinItems(items, dead, alive)[1..] == RepinItems(items[1..], dead, alive);
      assert RenameItems(items, dead, alive)[1..] == RenameItems(items[1..], dead, alive);
    }
  }

  lemma {:induction false} FieldHarm(f: Field, dead: Name, alive: Name)
    requires dead != alive
    ensures RepinField(f, dead, alive) == RenameField(f, dead, alive)
            <==> Unextended(if f.value.Str? then PiecePins(f.value.pieces) else Visited(f.value), dead)
    decreases f
  {
    if f.value.Str? {
      PiecesHarm(f.value.pieces, dead, alive);
    } else {
      RepinIsRename(f.value, dead, alive);
    }
  }

  lemma {:induction false} FieldsHarm(fields: seq<Field>, dead: Name, alive: Name)
    requires dead != alive
    ensures RepinFields(fields, dead, alive) == RenameFields(fields, dead, alive)
            <==> Unextended(VisitedFields(fields), dead)
    decreases fields
  {
    if fields != [] {
      var f := fields[0];
      FieldHarm(f, dead, alive);
      FieldsHarm(fields[1..], dead, alive);
      UnextendedUnion(if f.value.Str? then PiecePins(f.value.pieces) else Visited(f.value), VisitedFields(fields[1..]), dead);
      assert RepinFields(fields, dead, alive)[1..] == RepinFields(fields[1..], dead, alive);
      assert RenameFields(fields, dead, alive)[1..] == RenameFields(fields[1..], dead, alive);
    }
  }

  lemma OnePinConfig(key: string, p: Piece)
    requires !IsRefKey(key) && p.Pin?
    ensures Pins(Dict([Field(key, Str([p]))])) == {p.node}
  {
    var pieces := [p];
    assert pieces[1..] == [] && PiecePins(pieces) == {p.node};
    var value := Str(pieces);
    assert Pins(value) == PiecePins(pieces);
    var fields := [Field(key, value)];
    assert fields[1..] == [] && FieldPins(fields[0]) == Pins(value);
    assert FieldsPins(fields) == FieldPins(fields[0]) + FieldsPins(fields[1..]) == {p.node};
  }

  /** For example: repinning a dead node turns the live reference to a node whose name it starts
      into one to a node that does not exist. */
  lemma RepinHarmsLongerNames(key: string, dead: string, part: string, alive: string)
    requires dead != alive && !IsRefKey(key)
    ensures var c := Dict([Field(key, Str([Pin("m", [dead, part])]))]);
            && Pins(c) == {[dead, part]}
            && Pins(Repin(c, [dead], [alive])) == {[alive, part]}
  {
    var pin, pin' := Pin("m", [dead, part]), Pin("m", [alive, part]);
    OnePinConfig(key, pin);
    OnePinConfig(key, pin');
    assert Extends([dead, part], [dead]);
    assert [alive] + [dead, part][1..] == [alive, part];
    assert [pin][1..] == [];
    assert RepinPieces([pin], [dead], [alive]) == [pin'];
    var fields := [Field(key, Str([pin]))];
    assert fields[1..] == [];
    assert RepinFields(fields, [dead], [alive]) == [Field(key, Str([pin']))];
  }

  // ------------------------------------------------------------ repinning every dead node

  /** What becomes of a name in a string when the dead names are repinned one after the other. */
  function RepinNames(n: Name, dead: seq<Name>, alive: Name): Name {
    if dead == [] then n else RepinName(RepinNames(n, dead[..|dead| - 1], alive), dead[|dead| - 1], alive)
  }

  function RenameNames(n: Name, dead: seq<Name>, alive: Name): Name { if n in dead then alive else n }

  function RepinNamesSet(names: set<Name>, dead: seq<Name>, alive: Name): set<Name> {
    set n | n in names :: RepinNames(n, dead, alive)
  }

  function RenameNamesSet(names: set<Name>, dead: seq<Name>, alive: Name): set<Name> {
    set n | n in names :: RenameNames(n, dead, alive)
  }

  lemma NamesSetNext(names: set<Name>, front: seq<Name>, d: Name, alive: Name)
    requires d != alive
    ensures RepinSet(RepinNamesSet(names, front, alive), d, alive) == RepinNamesSet(names, front + [d], alive)
    ensures RenameSet(RenameNamesSet(names, front, alive), d, alive) == RenameNamesSet(names, front + [d], alive)
  {
    var dead := front + [d];
    assert dead[..|dead| - 1] == front;
    assert forall n :: RepinNames(n, dead, alive) == RepinName(RepinNames(n, front, alive), d, alive);
    assert forall n :: RenameNames(n, dead, alive) == RenameName(RenameNames(n, front, alive), d, alive);
  }

  lemma {:induction false} RepinAllReach(c: Cfg, dead: seq<Name>, alive: Name)
    requires alive !in dead
    ensures TextReach(RepinAll(c, dead, alive)) == RepinNamesSet(TextReach(c), dead, alive)
    ensures BareReach(RepinAll(c, dead, alive)) == RenameNamesSet(BareReach(c), dead, alive)
    ensures OutOfReach(RepinAll(c, dead, alive)) == OutOfReach(c)
  {
    if dead != [] {
      var front, d := dead[..|dead| - 1], dead[|dead| - 1];
      assert dead == front + [d] && d in dead;
      RepinAllReach(c, front, alive);
      RepinReach(RepinAll(c, front, alive), d, alive);
      NamesSetNext(TextReach(c), front, d, alive);
      NamesSetNext(BareReach(c), front, d, alive);
    }
  }

  /** Nothing dead is out of reach, and no name in a string is turned into a dead one. */
  ghost predicate Mendable(text: set<Name>, outOfReach: set<Name>, active: set<Name>, dead: seq<Name>, alive: Name) {
    outOfReach <= active && forall n :: n in text ==> RepinNames(n, dead, alive) in active
  }

  /** Repinning every dead reference to a live node leaves only live references exactly when no dead
      reference is out of the rewrite's reach and no name is damaged on the way. */
  lemma RepinAllIsExact(c: Cfg, active: set<Name>, dead: seq<Name>, alive: Name)
    requires alive in active && alive !in dead
    requires forall n :: n in BareReach(c) && n !in active ==> n in dead
    ensures Pins(RepinAll(c, dead, alive)) <= active
            <==> Mendable(TextReach(c), OutOfReach(c), active, dead, alive)
  {
    RepinAllReach(c, dead, alive);
    PinsSplit(RepinAll(c, dead, alive));
    MendableNames(TextReach(c), BareReach(c), OutOfReach(c), active, dead, alive);
  }

  lemma MendableNames(text: set<Name>, bare: set<Name>, outOfReach: set<Name>, active: set<Name>, dead: seq<Name>, alive: Name)
    requires alive in active
    requires forall n :: n in bare && n !in active ==> n in dead
    ensures RepinNamesSet(text, dead, alive) + RenameNamesSet(bare, dead, alive) + outOfReach <= active
            <==> Mendable(text, outOfReach, active, dead, alive)
  {
    var image := RepinNamesSet(text, dead, alive);
    assert RenameNamesSet(bare, dead, alive) <= active;
    assert forall n :: n in text ==> RepinNames(n, dead, alive) in image;
  }

  /** Where no dead name starts another name, nothing is damaged: dead names become the live one. */
  lemma {:induction false} UnextendedNames(n: Name, dead: seq<Name>, alive: Name)
    requires forall d :: d in dead ==> !Extends(alive, d) && (Extends(n, d) ==> n == d)
    ensures RepinNames(n, dead, alive) == RenameNames(n, dead, alive)
  {
    if dead != [] {
      var front, d := dead[..|dead| - 1], dead[|dead| - 1];
      assert dead == front + [d] && d in dead;
      UnextendedNames(n, front, alive);
      assert Extends(d, d);
      assert n == d ==> alive + n[|d|..] == alive;
    }
  }

  // ------------------------------------------------------------ templates

  /** A stored template. Its configuration is a dictionary. The scan puts the stored id, name and
      description in the place of the configuration's own entries of that name and searches the
      result; the rewrite works on the configuration alone. */
  datatype Template = Template(id: seq<Piece>, suffix: Option<Name>, name: seq<Piece>, description: seq<Piece>,
                               fields: seq<Field>)

  predicate IsOverwritten(key: string) {
    key == "id" || key == "name" || key == "description" || key == "is_active"
  }

  /** The entries of the configuration that the scan sees. */
  function Seen(fields: seq<Field>): seq<Field> {
    if fields == [] then []
    else if IsOverwritten(fields[0].key) then Seen(fields[1..])
    else [fields[0]] + Seen(fields[1..])
  }

  datatype Server = Server(name: Name, enabled: bool, ontologyEnabled: bool, isOllama: bool, vramGb: int)

  function ActiveNames(servers: seq<Server>): set<Name> {
    set s | s in servers && s.name != [] :: s.name
  }

  /** Every named server counts, whether it is enabled or not. */
  lemma NamedServersCount(servers: seq<Server>, n: Name)
    ensures n in ActiveNames(servers) <==> n != [] && exists i :: 0 <= i < |servers| && servers[i].name == n
  {
    if i :| 0 <= i < |servers| && servers[i].name == n && n != [] {
      assert servers[i] in servers;
    }
  }

  /** The node a template is named after no longer exists. */
  predicate NamedAfterDead(t: Template, active: set<Name>) {
    t.suffix.Some? && t.suffix.value !in active
  }

  function TemplatePins(t: Template): set<Name> {
    LabelPins(t) + FieldsPins(Seen(t.fields))
  }

  function LabelPins(t: Template): set<Name> {
    PiecePins(t.id) + PiecePins(t.name) + PiecePins(t.description)
  }

  predicate IsOrphan(t: Template, active: set<Name>) {
    NamedAfterDead(t, active) || !(TemplatePins(t) <= active)
  }

  /** The enabled Ollama servers, those with the ontology service if there are any. */
  function Candidates(servers: seq<Server>): seq<Server> {
    var preferred := Filter((s: Server) => s.enabled && s.ontologyEnabled && s.isOllama, servers);
    if preferred != [] then preferred else Filter((s: Server) => s.enabled && s.isOllama, servers)
  }

  function PickFallback(servers: seq<Server>): Option<Name> {
    var c := Candidates(servers);
    if c == [] then None
    else
      SortKeepsLength((s: Server) => -(s.vramGb as real), c);
      Some(Sort((s: Server) => -(s.vramGb as real), c)[0].name)
  }

  lemma SortKeepsLength<T>(key: T -> real, s: seq<T>)
    ensures |Sort(key, s)| == |s|
  {
    SortSorts(key, s);
    SameMultisetSameMembers(s, Sort(key, s));
  }

  /** Server i is enabled and runs Ollama and, if wanted, offers the ontology service. */
  predicate Usable(servers: seq<Server>, i: nat, ontology: bool) {
    i < |servers| && servers[i].enabled && servers[i].isOllama && (ontology ==> servers[i].ontologyEnabled)
  }

  /** ... and has the most memory among those, the first of them in the list if several have it. */
  ghost predicate IsBest(servers: seq<Server>, i: nat, ontology: bool) {
    && Usable(servers, i, ontology)
    && forall j: nat :: Usable(servers, j, ontology) ==>
         servers[j].vramGb < servers[i].vramGb || (servers[j].vramGb == servers[i].vramGb && i <= j)
  }

  lemma BestOf(servers: seq<Server>, p: Server -> bool, ontology: bool) returns (i: nat)
    requires forall j: nat :: j < |servers| ==> (p(servers[j]) <==> Usable(servers, j, ontology))
    requires Filter(p, servers) != []
    ensures |Sort((s: Server) => -(s.vramGb as real), Filter(p, servers))| == |Filter(p, servers)|
    ensures IsBest(servers, i, ontology)
    ensures Sort((s: Server) => -(s.vramGb as real), Filter(p, servers))[0] == servers[i]
  {
    var key := (s: Server) => -(s.vramGb as real);
    var c := Filter(p, servers);
    var at := FilterAt(p, servers);
    var from := SortAt(key, c);
    i := at[from[0]];
    assert Has(at, at[from[0]]);
    forall j: nat | Usable(servers, j, ontology)
      ensures servers[j].vramGb < servers[i].vramGb || (servers[j].vramGb == servers[i].vramGb && i <= j)
    {
      assert Has(at, j);
      var y :| 0 <= y < |at| && at[y] == j;
      assert Has(from, y);
      var z :| 0 <= z < |from| && from[z] == y;
      assert c[from[z]] == servers[j] && c[from[0]] == servers[i];
      if z > 0 {
        assert key(c[from[0]]) < key(c[from[z]]) || (key(c[from[0]]) == key(c[from[z]]) && from[0] < from[z]);
      }
    }
  }

  lemma NoneUsable(servers: seq<Server>, p: Server -> bool, ontology: bool)
    requires forall j: nat :: j < |servers| ==> (p(servers[j]) <==> Usable(servers, j, ontology))
    ensures Filter(p, servers) == [] <==> forall j: nat :: !Usable(servers, j, ontology)
  {
    var at := FilterAt(p, servers);
    if Filter(p, servers) != [] {
      assert Has(at, at[0]);
      assert Usable(servers, at[0], ontology);
    }
    if j: nat :| Usable(servers, j, ontology) {
      assert Has(at, j);
    }
  }

  /** The fallback is the best server with the ontology service if there is one, else the best one
      without regard to it, and none exactly if no enabled server runs Ollama. */
  lemma FallbackIsBest(servers: seq<Server>) returns (i: nat)
    ensures PickFallback(servers).None? <==> forall j: nat :: !Usable(servers, j, false)
    ensures PickFallback(servers).Some? ==>
              && i < |servers| && PickFallback(servers) == Some(servers[i].name)
              && IsBest(servers, i, exists j: nat :: Usable(servers, j, true))
  {
    var p, q := (s: Server) => s.enabled && s.ontologyEnabled && s.isOllama, (s: Server) => s.enabled && s.isOllama;
    NoneUsable(servers, p, true);
    NoneUsable(servers, q, false);
    i := 0;
    if j: nat :| Usable(servers, j, true) {
      assert Usable(servers, j, false);
      i := BestOf(servers, p, true);
    } else if PickFallback(servers).Some? {
      i := BestOf(servers, q, false);
    }
  }

  /** The dead references of a template in the order they are repinned. */
  ghost predicate DeadOf(t: Template, active: set<Name>, dead: seq<Name>) {
    forall n :: n in dead <==> n in TemplatePins(t) && n !in active
  }

  function RepinTemplate(t: Template, dead: seq<Name>, fallback: Name): Template {
    t.(fields := RepinAll(Dict(t.fields), dead, fallback).fields)
  }

  lemma {:induction false} SeenRepinned(fields: seq<Field>, dead: Name, alive: Name)
    ensures Seen(RepinFields(fields, dead, alive)) == RepinFields(Seen(fields), dead, alive)
  {
    if fields != [] {
      SeenRepinned(fields[1..], dead, alive);
      assert RepinFields(fields, dead, alive)[1..] == RepinFields(fields[1..], dead, alive);
      assert !IsOverwritten(fields[0].key) ==> Seen(fields)[1..] == Seen(fields[1..]);
    }
  }

  lemma {:induction false} SeenRepinnedAll(fields: seq<Field>, dead: seq<Name>, alive: Name)
    ensures Seen(RepinAll(Dict(fields), dead, alive).fields) == RepinAll(Dict(Seen(fields)), dead, alive).fields
  {
    if dead != [] {
      var front := dead[..|dead| - 1];
      SeenRepinnedAll(fields, front, alive);
      SeenRepinned(RepinAll(Dict(fields), front, alive).fields, dead[|dead| - 1], alive);
    }
  }

  /** What a caller can check beforehand: no dead pin in the template's id, name or description,
      none in a list of strings, and no name in a string that repinning would damage. */
  ghost predicate MendableTemplate(t: Template, active: set<Name>, dead: seq<Name>, fallback: Name) {
    var seen := Seen(t.fields);
    Mendable(TextReachFields(seen), LabelPins(t) + OutOfReachFields(seen), active, dead, fallback)
  }

  /** After a repin with a live fallback the template is no orphan exactly when it was mendable. */
  lemma RepinTemplateIsExact(t: Template, active: set<Name>, dead: seq<Name>, fallback: Name)
    requires !NamedAfterDead(t, active) && fallback in active && DeadOf(t, active, dead)
    ensures !IsOrphan(RepinTemplate(t, dead, fallback), active) <==> MendableTemplate(t, active, dead, fallback)
  {
    var seen := Seen(t.fields);
    SeenRepinnedAll(t.fields, dead, fallback);
    PinsSplit(Dict(seen));
    RepinAllIsExact(Dict(seen), active, dead, fallback);
    assert Pins(RepinAll(Dict(seen), dead, fallback)) == FieldsPins(Seen(RepinTemplate(t, dead, fallback).fields));
  }

  // ------------------------------------------------------------ scan and cleanup

  /** What cleanup makes of one template: delete it, repin it, or leave it. `listed` puts a set of
      names in order. */
  function CleanOne(t: Template, active: set<Name>, fallback: Option<Name>, listed: set<Name> -> seq<Name>): seq<Template> {
    if NamedAfterDead(t, active) then []
    else if !(TemplatePins(t) <= active) && fallback.Some?
    then [RepinTemplate(t, listed(TemplatePins(t) - active), fallback.value)]
    else [t]
  }

  function CleanAll(rows: seq<Template>, active: set<Name>, fallback: Option<Name>, listed: set<Name> -> seq<Name>): seq<Template> {
    if rows == [] then []
    else CleanAll(rows[..|rows| - 1], active, fallback, listed) + CleanOne(rows[|rows| - 1], active, fallback, listed)
  }

  /** How many templates are orphans by name, and how many by a pin only. */
  function ByName(rows: seq<Template>, active: set<Name>): nat {
    |Filter((t: Template) => NamedAfterDead(t, active), rows)|
  }

  function ByPin(rows: seq<Template>, active: set<Name>): nat {
    |Filter((t: Template) => !NamedAfterDead(t, active) && !(TemplatePins(t) <= active), rows)|
  }

  datatype Removed = Removed(deleted: nat, repinned: nat, errors: nat)

  class TemplateTable {
    var rows: seq<Template>

    constructor (rows: seq<Template>)
      ensures this.rows == rows
    {
      this.rows := rows;
    }

    /** One template: deleted, repinned, counted as an error for want of a fallback, or kept. */
    method CleanTemplate(t: Template, active: set<Name>, fallback: Option<Name>, listed: set<Name> -> seq<Name>, r: Removed)
      returns (out: seq<Template>, r': Removed)
      ensures out == CleanOne(t, active, fallback, listed)
      ensures r' == Bump(r, t, active, fallback)
    {
      if NamedAfterDead(t, active) {
        return [], r.(deleted := r.deleted + 1);
      }
      if TemplatePins(t) <= active {
        return [t], r;
      }
      var dead := TemplatePins(t) - active;
      if fallback.None? {
        return [t], r.(errors := r.errors + 1);
      }
      return [RepinTemplate(t, listed(dead), fallback.value)], r.(repinned := r.repinned + 1);
    }

    /** Deletes templates named after dead nodes and repins the others; a dry run only counts. */
    method Cleanup(servers: seq<Server>, dryRun: bool, listed: set<Name> -> seq<Name>) returns (r: Removed)
      modifies this
      ensures rows == if dryRun then old(rows)
                      else CleanAll(old(rows), ActiveNames(servers), PickFallback(servers), listed)
      ensures r == Counted(old(rows), ActiveNames(servers), PickFallback(servers))
    {
      var kept;
      kept, r := CleanRows(rows, ActiveNames(servers), PickFallback(servers), listed);
      if !dryRun {
        rows := kept;
      }
    }

    method CleanRows(scan: seq<Template>, active: set<Name>, fallback: Option<Name>, listed: set<Name> -> seq<Name>)
      returns (kept: seq<Template>, r: Removed)
      ensures kept == CleanAll(scan, active, fallback, listed)
      ensures r == Counted(scan, active, fallback)
    {
      kept, r := [], Removed(0, 0, 0);
      var i := 0;
      while i < |scan|
        invariant 0 <= i <= |scan|
        invariant kept == CleanAll(scan[..i], active, fallback, listed)
        invariant r == Counted(scan[..i], active, fallback)
      {
        CountStep(scan, i, active, fallback);
        CleanStep(scan, i, active, fallback, listed);
        var out;
        out, r := CleanTemplate(scan[i], active, fallback, listed, r);
        kept := kept + out;
        i := i + 1;
      }
      assert scan[..i] == scan;
    }
  }

  /** The counters of a cleanup. */
  function Counted(rows: seq<Template>, active: set<Name>, fallback: Option<Name>): Removed {
    Removed(ByName(rows, active),
            if fallback.Some? then ByPin(rows, active) else 0,
            if fallback.Some? then 0 else ByPin(rows, active))
  }

  lemma CleanStep(rows: seq<Template>, i: nat, active: set<Name>, fallback: Option<Name>, listed: set<Name> -> seq<Name>)
    requires i < |rows|
    ensures CleanAll(rows[..i + 1], active, fallback, listed)
         == CleanAll(rows[..i], active, fallback, listed) + CleanOne(rows[i], active, fallback, listed)
  {
    assert rows[..i + 1][..i] == rows[..i];
  }

  /** The counters after one more template. */
  function Bump(r: Removed, t: Template, active: set<Name>, fallback: Option<Name>): Removed {
    if NamedAfterDead(t, active) then r.(deleted := r.deleted + 1)
    else if TemplatePins(t) <= active then r
    else if fallback.None? then r.(errors := r.errors + 1)
    else r.(repinned := r.repinned + 1)
  }

  lemma CountStep(rows: seq<Template>, i: nat, active: set<Name>, fallback: Option<Name>)
    requires i < |rows|
    ensures Counted(rows[..i + 1], active, fallback) == Bump(Counted(rows[..i], active, fallback), rows[i], active, fallback)
  {
    assert rows[..i + 1] == rows[..i] + [rows[i]];
    FilterConcat((t: Template) => NamedAfterDead(t, active), rows[..i], [rows[i]]);
    FilterConcat((t: Template) => !NamedAfterDead(t, active) && !(TemplatePins(t) <= active), rows[..i], [rows[i]]);
  }

  /** What cleanup keeps: `at` names exactly the templates that are not named after a node missing
      from the list, in order. Each keeps its id, name and description, and its configuration too
      unless it has a dead reference and there is a fallback. */
  ghost predicate Cleaned(rows: seq<Template>, active: set<Name>, fallback: Option<Name>, listed: set<Name> -> seq<Name>,
                          r: seq<Template>, at: seq<nat>)
  {
    && |r| == |at| && Ascending(at)
    && (forall x :: 0 <= x < |at| ==>
          && at[x] < |rows| && (rows[at[x]].suffix.Some? ==> rows[at[x]].suffix.value in active)
          && r[x] == rows[at[x]].(fields := r[x].fields)
          && (if TemplatePins(rows[at[x]]) <= active || fallback.None? then r[x].fields == rows[at[x]].fields
              else Dict(r[x].fields)
                   == RepinAll(Dict(rows[at[x]].fields), listed(TemplatePins(rows[at[x]]) - active), fallback.value)))
    && forall i: nat :: i < |rows| && (rows[i].suffix.Some? ==> rows[i].suffix.value in active) ==> Has(at, i)
  }

  lemma CleanedOneMore(rows: seq<Template>, active: set<Name>, fallback: Option<Name>, listed: set<Name> -> seq<Name>,
                       r: seq<Template>, at: seq<nat>, t: Template)
    requires Cleaned(rows, active, fallback, listed, r, at)
    ensures Cleaned(rows + [t], active, fallback, listed, r + CleanOne(t, active, fallback, listed),
                    if NamedAfterDead(t, active) then at else at + [|rows|])
  {
    if NamedAfterDead(t, active) {
      CleanedDead(rows, active, fallback, listed, r, at, t);
    } else {
      CleanedKept(rows, active, fallback, listed, r, at, t);
    }
  }

  lemma CleanedDead(rows: seq<Template>, active: set<Name>, fallback: Option<Name>, listed: set<Name> -> seq<Name>,
                    r: seq<Template>, at: seq<nat>, t: Template)
    requires Cleaned(rows, active, fallback, listed, r, at) && NamedAfterDead(t, active)
    ensures Cleaned(rows + [t], active, fallback, listed, r + CleanOne(t, active, fallback, listed), at)
  {
    hide TemplatePins, RepinAll, Has;
    assert r + [] == r;
  }

  lemma CleanedKept(rows: seq<Template>, active: set<Name>, fallback: Option<Name>, listed: set<Name> -> seq<Name>,
                    r: seq<Template>, at: seq<nat>, t: Template)
    requires Cleaned(rows, active, fallback, listed, r, at) && !NamedAfterDead(t, active)
    ensures Cleaned(rows + [t], active, fallback, listed, r + CleanOne(t, active, fallback, listed), at + [|rows|])
  {
    hide TemplatePins, RepinAll, Has;
    forall i: nat ensures Has(at + [|rows|], i) <==> Has(at, i) || i == |rows| {
      HasConcat(at, [|rows|], i);
      HasOne(|rows|, i);
    }
  }

  lemma {:induction false} CleanupIsExact(rows: seq<Template>, active: set<Name>, fallback: Option<Name>,
                                          listed: set<Name> -> seq<Name>)
    returns (at: seq<nat>)
    ensures Cleaned(rows, active, fallback, listed, CleanAll(rows, active, fallback, listed), at)
  {
    if rows == [] {
      at := [];
    } else {
      hide Cleaned, CleanOne;
      var front, t := rows[..|rows| - 1], rows[|rows| - 1];
      assert rows == front + [t];
      var before := CleanupIsExact(front, active, fallback, listed);
      CleanedOneMore(front, active, fallback, listed, CleanAll(front, active, fallback, listed), before, t);
      at := if NamedAfterDead(t, active) then before else before + [|front|];
    }
  }

  /** After a cleanup with a live fallback, a second scan reports no template at all exactly when
      every template that is kept was mendable. */
  lemma {:induction false} SecondScanIsClean(rows: seq<Template>, active: set<Name>, fallback: Name, listed: set<Name> -> seq<Name>)
    requires fallback in active
    requires forall s, n :: n in listed(s) <==> n in s
    ensures (forall t :: t in CleanAll(rows, active, Some(fallback), listed) ==> !IsOrphan(t, active))
            <==> forall t :: t in rows && !NamedAfterDead(t, active) ==>
                   MendableTemplate(t, active, listed(TemplatePins(t) - active), fallback)
  {
    if rows != [] {
      var front, t := rows[..|rows| - 1], rows[|rows| - 1];
      assert rows == front + [t] && t in rows;
      SecondScanIsClean(front, active, fallback, listed);
      CleanOneIsExact(t, active, fallback, listed);
    }
  }

  lemma HasMember<T>(s: seq<T>)
    requires s != []
    ensures exists x :: x in s
  {
    assert s[0] in s;
  }

  lemma CleanOneIsExact(t: Template, active: set<Name>, fallback: Name, listed: set<Name> -> seq<Name>)
    requires fallback in active
    requires forall s, n :: n in listed(s) <==> n in s
    ensures (forall r :: r in CleanOne(t, active, Some(fallback), listed) ==> !IsOrphan(r, active))
            <==> NamedAfterDead(t, active) || MendableTemplate(t, active, listed(TemplatePins(t) - active), fallback)
  {
    if !NamedAfterDead(t, active) {
      var dead := listed(TemplatePins(t) - active);
      RepinTemplateIsExact(t, active, dead, fallback);
      if TemplatePins(t) <= active {
        if dead != [] {
          HasMember(dead);
        }
        assert RepinTemplate(t, [], fallback) == t;
        assert CleanOne(t, active, Some(fallback), listed) == [t];
      } else {
        assert CleanOne(t, active, Some(fallback), listed) == [RepinTemplate(t, dead, fallback)];
      }
    }
  }
}
