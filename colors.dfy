/** Player colours: the eight seats of a game (src/game/color). */
module Colors {

  datatype ColorType = Black | Blue | Green | Pink | Purple | Red | White | Yellow

  /**
   * The string value of a colour type. The `ColorType` enum itself is not part of
   * this model; its values are taken to be the lower-case colour names.
   */
  function Name(t: ColorType): string
  {
    match t
    case Black => "black"
    case Blue => "blue"
    case Green => "green"
    case Pink => "pink"
    case Purple => "purple"
    case Red => "red"
    case White => "white"
    case Yellow => "yellow"
  }

  /** A colour is a value: its type is fixed when it is built and has no setter. */
  datatype Color = Color(colorType: ColorType) {

    function GetType(): ColorType { colorType }

    /** The player model file for this colour. */
    function SkinPath(): string
    {
      SkinPrefix + Name(colorType) + SkinSuffix
    }
  }

  const SkinPrefix: string := "models/players/"
  const SkinSuffix: string := ".gltf"

  /** The colour type at position `i` of the factory list. */
  function TypeAt(i: nat): ColorType
    requires i < 8
  {
    match i
    case 0 => Black
    case 1 => Blue
    case 2 => Green
    case 3 => Pink
    case 4 => Purple
    case 5 => Red
    case 6 => White
    case _ => Yellow
  }

  /** The fixed list of the eight colours, in factory order; each call builds the list anew. */
  function CreateColors(): (r: seq<Color>)
    ensures |r| == 8
    ensures forall i, j :: 0 <= i < j < |r| ==> r[i] != r[j]
  {
    seq(8, i requires 0 <= i < 8 => Color(TypeAt(i)))
  }

  /** The factory order: black, blue, green, pink, purple, red, white, yellow. */
  lemma CreateColorsOrder()
    ensures CreateColors() == [Color(Black), Color(Blue), Color(Green), Color(Pink),
                               Color(Purple), Color(Red), Color(White), Color(Yellow)]
  {
  }

  /** The number of colours, which is also the most players a game can seat. */
  const MaxPlayers: nat := 8

  /** The colour names, in the order the emergency-meeting poll lists them. */
  function ColorNames(): (r: seq<string>)
    ensures |r| == |CreateColors()|
    ensures forall i :: 0 <= i < |r| ==> r[i] == Name(CreateColors()[i].colorType)
  {
    seq(|CreateColors()|, i requires 0 <= i < |CreateColors()| => Name(CreateColors()[i].colorType))
  }

  /** Distinct colour types have distinct names. */
  lemma NameInjective(a: ColorType, b: ColorType)
    requires Name(a) == Name(b)
    ensures a == b
  {
  }

  /** Every colour type is in the factory list, so the eight colours are all the colours. */
  lemma CreateColorsCoversAllTypes(t: ColorType)
    ensures Color(t) in CreateColors()
  {
    var r := CreateColors();
    match t
    case Black => assert r[0] == Color(t);
    case Blue => assert r[1] == Color(t);
    case Green => assert r[2] == Color(t);
    case Pink => assert r[3] == Color(t);
    case Purple => assert r[4] == Color(t);
    case Red => assert r[5] == Color(t);
    case White => assert r[6] == Color(t);
    case Yellow => assert r[7] == Color(t);
  }

  /** Distinct colours have distinct skin files, so the skin path identifies the colour. */
  lemma SkinPathInjective(a: Color, b: Color)
    requires a.SkinPath() == b.SkinPath()
    ensures a == b
  {
    var p, q := a.SkinPath(), b.SkinPath();
    var n := |SkinPrefix|;
    assert p[n..|p| - |SkinSuffix|] == Name(a.colorType);
    assert q[n..|q| - |SkinSuffix|] == Name(b.colorType);
    NameInjective(a.colorType, b.colorType);
  }

  /** The skin path is the podium model string `models/players/<type>.gltf`. */
  lemma SkinPathShape(c: Color)
    ensures |c.SkinPath()| == |SkinPrefix| + |Name(c.colorType)| + |SkinSuffix|
    ensures c.SkinPath()[..|SkinPrefix|] == "models/players/"
    ensures c.SkinPath()[|c.SkinPath()| - |SkinSuffix|..] == ".gltf"
    ensures c.SkinPath()[|SkinPrefix|..|c.SkinPath()| - |SkinSuffix|] == Name(c.colorType)
  {
  }
}
