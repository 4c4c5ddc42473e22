/**
 * Builders of the `d` attribute of an SVG path: one command per call, each
 * command a letter and its coordinates joined by single spaces, and a path
 * builder that collects the commands of a drawing callback in call order.
 *
 * JavaScript's conversion of a number to its decimal text is a parameter
 * (`Show`); the one thing assumed of it is that it gives a non-empty text
 * without spaces.
 */
module SvgPath {
  import opened Geometry
  import opened Wrappers

  /** Number-to-text conversion, as `Array.prototype.join` applies it to numbers. */
  type Show = real -> string

  /** Every number is written as at least one character and no space. */
  ghost predicate Printable(show: Show)
  {
    forall v :: show(v) != [] && ' ' !in show(v)
  }

  /** A piece of text that `split(" ")` keeps whole. */
  predicate Token(t: string)
  {
    ' ' !in t
  }

  // ---------------------------------------------------------------------
  // join and split on single spaces
  // ---------------------------------------------------------------------

  /** `parts.join(" ")`: the empty list gives the empty text. */
  function Join(parts: seq<string>): string
  {
    if parts == [] then ""
    else if |parts| == 1 then parts[0]
    else parts[0] + " " + Join(parts[1..])
  }

  /** `s.split(" ")`: the pieces between single spaces, empty ones included. */
  function Split(s: string): (r: seq<string>)
    ensures |r| >= 1
  {
    if s == [] then [[]]
    else if s[0] == ' ' then [[]] + Split(s[1..])
    else
      var rest := Split(s[1..]);
      [[s[0]] + rest[0]] + rest[1..]
  }

  /** Text without a space is one piece. */
  lemma {:induction false} SplitToken(t: string)
    requires Token(t)
    ensures Split(t) == [t]
  {
    if t != [] {
      SplitToken(t[1..]);
      assert [t[0]] + t[1..] == t;
    }
  }

  /** A space-free first piece is split off at the first space. */
  lemma {:induction false} SplitFirst(t: string, rest: string)
    requires Token(t)
    ensures Split(t + " " + rest) == [t] + Split(rest)
  {
    if t == [] {
      assert t + " " + rest == [' '] + rest;
      assert ([' '] + rest)[1..] == rest;
    } else {
      var s := t + " " + rest;
      assert s[0] == t[0] && s[1..] == t[1..] + " " + rest;
      SplitFirst(t[1..], rest);
      assert [t[0]] + t[1..] == t;
    }
  }

  /** join then split gives the pieces back, when none holds a space. */
  lemma {:induction false} SplitJoin(parts: seq<string>)
    requires parts != [] && forall i :: 0 <= i < |parts| ==> Token(parts[i])
    ensures Split(Join(parts)) == parts
  {
    if |parts| == 1 {
      SplitToken(parts[0]);
    } else {
      SplitJoin(parts[1..]);
      SplitFirst(parts[0], Join(parts[1..]));
    }
  }

  /** Joining two non-empty lists is joining their joins. */
  lemma {:induction false} JoinAppend(a: seq<string>, b: seq<string>)
    requires a != [] && b != []
    ensures Join(a + b) == Join(a) + " " + Join(b)
  {
    if |a| == 1 {
      assert (a + b)[1..] == b;
    } else {
      JoinAppend(a[1..], b);
      assert (a + b)[1..] == a[1..] + b;
    }
  }

  /** All the pieces of a list of lists, in order. */
  function Flatten(groups: seq<seq<string>>): seq<string>
  {
    if groups == [] then [] else groups[0] + Flatten(groups[1..])
  }

  /** The join of every group's join. */
  function JoinEach(groups: seq<seq<string>>): seq<string>
  {
    if groups == [] then [] else [Join(groups[0])] + JoinEach(groups[1..])
  }

  /** Joining the joined groups is joining all their pieces at once, when no group is empty. */
  lemma {:induction false} JoinFlatten(groups: seq<seq<string>>)
    requires forall i :: 0 <= i < |groups| ==> groups[i] != []
    ensures Join(JoinEach(groups)) == Join(Flatten(groups))
  {
    if |groups| == 1 {
      assert groups[1..] == [];
      assert JoinEach(groups) == [Join(groups[0])];
      assert Flatten(groups) == groups[0] + [] == groups[0];
    } else if |groups| > 1 {
      var rest := JoinEach(groups[1..]);
      JoinFlatten(groups[1..]);
      FlattenNonEmpty(groups[1..]);
      JoinAppend(groups[0], Flatten(groups[1..]));
      assert ([Join(groups[0])] + rest)[1..] == rest;
    }
  }

  lemma {:induction false} FlattenNonEmpty(groups: seq<seq<string>>)
    requires groups != [] && groups[0] != []
    ensures Flatten(groups) != []
  {
  }

  // ---------------------------------------------------------------------
  // the commands
  // ---------------------------------------------------------------------

  /**
   * The `coordinateType` argument: missing (undefined, so the default
   * "absolute" applies) or any text.
   */
  type CoordinateType = Option<string>

  predicate IsAbsolute(coordinateType: CoordinateType)
  {
    coordinateType.None? || coordinateType.value == "absolute"
  }

  predicate IsUpper(c: char)
  {
    'A' <= c <= 'Z'
  }

  /** The command letter: upper-case for absolute coordinates, lower-case otherwise. */
  function Letter(upper: char, coordinateType: CoordinateType): (s: string)
    requires IsUpper(upper)
    ensures |s| == 1 && (IsUpper(s[0]) <==> IsAbsolute(coordinateType))
    ensures s[0] == upper || s[0] as int == upper as int + 32
  {
    if IsAbsolute(coordinateType) then [upper] else [(upper as int + 32) as char]
  }

  /** The tokens of a command: its letter, then every point's x and y. */
  function Tokens(upper: char, points: seq<Vec2>, coordinateType: CoordinateType, show: Show): (r: seq<string>)
    requires IsUpper(upper)
    ensures |r| == 1 + 2 * |points| && r[0] == Letter(upper, coordinateType)
    ensures forall k :: 0 <= k < |points| ==> r[1 + 2 * k] == show(points[k].x) && r[2 + 2 * k] == show(points[k].y)
  {
    if points == [] then [Letter(upper, coordinateType)]
    else
      var rest := Tokens(upper, points[1..], coordinateType, show);
      assert forall k :: 1 <= k < |points| ==> points[1..][k - 1] == points[k];
      [rest[0], show(points[0].x), show(points[0].y)] + rest[1..]
  }

  /** `move`: "M x y", or "m x y" for relative coordinates. */
  function Move(endPoint: Vec2, coordinateType: CoordinateType, show: Show): string
  {
    Join(Tokens('M', [endPoint], coordinateType, show))
  }

  /** `line`: "L x y", or "l x y". */
  function Line(endPoint: Vec2, coordinateType: CoordinateType, show: Show): string
  {
    Join(Tokens('L', [endPoint], coordinateType, show))
  }

  /** `cubicBezier`: "C x1 y1 x2 y2 x y", or with "c". */
  function CubicBezier(controlPoint1: Vec2, controlPoint2: Vec2, endPoint: Vec2, coordinateType: CoordinateType, show: Show): string
  {
    Join(Tokens('C', [controlPoint1, controlPoint2, endPoint], coordinateType, show))
  }

  /** `smoothBezier`: "S x2 y2 x y", or with "s". */
  function SmoothBezier(controlPoint: Vec2, endPoint: Vec2, coordinateType: CoordinateType, show: Show): string
  {
    Join(Tokens('S', [controlPoint, endPoint], coordinateType, show))
  }

  /** `close`: the lone letter "Z". */
  function Close(): string
  {
    "Z"
  }

  /** Every token of a command is kept whole by `split(" ")`. */
  lemma TokensAreTokens(upper: char, points: seq<Vec2>, coordinateType: CoordinateType, show: Show)
    requires IsUpper(upper) && Printable(show)
    ensures forall i :: 0 <= i < |Tokens(upper, points, coordinateType, show)| ==> Token(Tokens(upper, points, coordinateType, show)[i])
  {
    var r := Tokens(upper, points, coordinateType, show);
    forall i | 0 <= i < |r|
      ensures Token(r[i])
    {
      if i == 0 {
        assert r[0] == Letter(upper, coordinateType) && r[0][0] != ' ';
      } else {
        var k := (i - 1) / 2;
        assert k < |points|;
        if i % 2 == 1 {
          assert i == 1 + 2 * k && r[i] == show(points[k].x);
        } else {
          assert i == 2 + 2 * k && r[i] == show(points[k].y);
        }
      }
    }
  }

  /**
   * A command splits back into its letter (upper-case exactly for absolute
   * coordinates) followed by the x and y of each point.
   */
  lemma CommandSplits(upper: char, points: seq<Vec2>, coordinateType: CoordinateType, show: Show)
    requires IsUpper(upper) && Printable(show)
    ensures Split(Join(Tokens(upper, points, coordinateType, show))) == Tokens(upper, points, coordinateType, show)
  {
    TokensAreTokens(upper, points, coordinateType, show);
    SplitJoin(Tokens(upper, points, coordinateType, show));
  }

  /** `move` and `line` give three tokens: the letter, x and y. */
  lemma MoveLineTokens(endPoint: Vec2, coordinateType: CoordinateType, show: Show)
    requires Printable(show)
    ensures Split(Move(endPoint, coordinateType, show)) == [if IsAbsolute(coordinateType) then "M" else "m", show(endPoint.x), show(endPoint.y)]
    ensures Split(Line(endPoint, coordinateType, show)) == [if IsAbsolute(coordinateType) then "L" else "l", show(endPoint.x), show(endPoint.y)]
  {
    CommandSplits('M', [endPoint], coordinateType, show);
    CommandSplits('L', [endPoint], coordinateType, show);
    assert Tokens('M', [endPoint], coordinateType, show) == [Letter('M', coordinateType), show(endPoint.x), show(endPoint.y)];
    assert Tokens('L', [endPoint], coordinateType, show) == [Letter('L', coordinateType), show(endPoint.x), show(endPoint.y)];
  }

  /** `cubicBezier` gives seven tokens, `smoothBezier` five, and `close` one. */
  lemma CurveTokens(c1: Vec2, c2: Vec2, endPoint: Vec2, coordinateType: CoordinateType, show: Show)
    requires Printable(show)
    ensures |Split(CubicBezier(c1, c2, endPoint, coordinateType, show))| == 7
    ensures |Split(SmoothBezier(c2, endPoint, coordinateType, show))| == 5
    ensures Split(Close()) == ["Z"]
  {
    CommandSplits('C', [c1, c2, endPoint], coordinateType, show);
    CommandSplits('S', [c2, endPoint], coordinateType, show);
    SplitToken("Z");
  }

  // ---------------------------------------------------------------------
  // pathBuilder
  // ---------------------------------------------------------------------

  /** One call the drawing callback makes on the builder. */
  datatype Call =
    | MoveTo(endPoint: Vec2, coordinateType: CoordinateType)
    | ClosePath
    | Cubic(controlPoint1: Vec2, controlPoint2: Vec2, endPoint: Vec2, coordinateType: CoordinateType)
    | Smooth(controlPoint: Vec2, endPoint: Vec2, coordinateType: CoordinateType)

  /** The tokens of the command a call pushes. */
  function CallTokens(call: Call, show: Show): (r: seq<string>)
    ensures r != []
  {
    match call
    case MoveTo(p, ct) => Tokens('M', [p], ct, show)
    case ClosePath => ["Z"]
    case Cubic(c1, c2, p, ct) => Tokens('C', [c1, c2, p], ct, show)
    case Smooth(c, p, ct) => Tokens('S', [c, p], ct, show)
  }

  /** The command a call pushes, as the matching builder function writes it. */
  function Command(call: Call, show: Show): string
  {
    Join(CallTokens(call, show))
  }

  lemma CommandIsBuilderFunction(call: Call, show: Show)
    ensures call.MoveTo? ==> Command(call, show) == Move(call.endPoint, call.coordinateType, show)
    ensures call.ClosePath? ==> Command(call, show) == Close()
    ensures call.Cubic? ==> Command(call, show) == CubicBezier(call.controlPoint1, call.controlPoint2, call.endPoint, call.coordinateType, show)
    ensures call.Smooth? ==> Command(call, show) == SmoothBezier(call.controlPoint, call.endPoint, call.coordinateType, show)
  {
  }

  function Commands(calls: seq<Call>, show: Show): (r: seq<string>)
    ensures |r| == |calls| && forall i :: 0 <= i < |calls| ==> r[i] == Command(calls[i], show)
  {
    if calls == [] then [] else [Command(calls[0], show)] + Commands(calls[1..], show)
  }

  function AllTokens(calls: seq<Call>, show: Show): seq<string>
  {
    if calls == [] then [] else CallTokens(calls[0], show) + AllTokens(calls[1..], show)
  }

  /** The cursor after one call: the call's end point; `close` leaves it where it was. */
  function Moved(cursor: Vec2, call: Call): Vec2
  {
    if call.ClosePath? then cursor else call.endPoint
  }

  /** Where the cursor ends: the end point of the last call that has one, else where it started. */
  function CursorAfter(cursor: Vec2, calls: seq<Call>): Vec2
    decreases |calls|
  {
    if calls == [] then cursor else CursorAfter(Moved(cursor, calls[0]), calls[1..])
  }

  /** The commands pushed so far and the end point of the last drawing call. */
  class PathBuilder {
    var path: seq<string>
    var cursor: Vec2
    const show: Show

    constructor(show: Show)
      ensures path == [] && cursor == Vec2(0.0, 0.0) && this.show == show
    {
      path := [];
      cursor := Vec2(0.0, 0.0);
      this.show := show;
    }

    method MoveTo(endPoint: Vec2, coordinateType: CoordinateType)
      modifies this
      ensures path == old(path) + [Move(endPoint, coordinateType, show)] && cursor == endPoint
    {
      path := path + [Move(endPoint, coordinateType, show)];
      cursor := endPoint;
    }

    method ClosePath()
      modifies this
      ensures path == old(path) + [Close()] && cursor == old(cursor)
    {
      path := path + [Close()];
    }

    method Cubic(controlPoint1: Vec2, controlPoint2: Vec2, endPoint: Vec2, coordinateType: CoordinateType)
      modifies this
      ensures path == old(path) + [CubicBezier(controlPoint1, controlPoint2, endPoint, coordinateType, show)]
      ensures cursor == endPoint
    {
      path := path + [CubicBezier(controlPoint1, controlPoint2, endPoint, coordinateType, show)];
      cursor := endPoint;
    }

    method Smooth(controlPoint: Vec2, endPoint: Vec2, coordinateType: CoordinateType)
      modifies this
      ensures path == old(path) + [SmoothBezier(controlPoint, endPoint, coordinateType, show)] && cursor == endPoint
    {
      path := path + [SmoothBezier(controlPoint, endPoint, coordinateType, show)];
      cursor := endPoint;
    }

    /** One call of the drawing callback, dispatched to the matching builder method. */
    method Apply(call: Call)
      modifies this
      ensures path == old(path) + [Command(call, show)] && cursor == Moved(old(cursor), call)
    {
      CommandIsBuilderFunction(call, show);
      match call {
        case MoveTo(p, ct) => MoveTo(p, ct);
        case ClosePath => ClosePath();
        case Cubic(c1, c2, p, ct) => Cubic(c1, c2, p, ct);
        case Smooth(c, p, ct) => Smooth(c, p, ct);
      }
    }

    /** The drawing callback's calls, made one after another. */
    method Draw(calls: seq<Call>)
      modifies this
      ensures path == old(path) + Commands(calls, show)
      ensures cursor == CursorAfter(old(cursor), calls)
    {
      var i := 0;
      while i < |calls|
        invariant 0 <= i <= |calls|
        invariant path == old(path) + Commands(calls[..i], show)
        invariant CursorAfter(cursor, calls[i..]) == CursorAfter(old(cursor), calls)
        decreases |calls| - i
      {
        CommandsSnoc(calls, i, show);
        assert calls[i..][1..] == calls[i + 1..];
        Apply(calls[i]);
        i := i + 1;
      }
      assert calls[..i] == calls;
    }
  }

  lemma CommandsSnoc(calls: seq<Call>, i: nat, show: Show)
    requires i < |calls|
    ensures Commands(calls[..i + 1], show) == Commands(calls[..i], show) + [Command(calls[i], show)]
  {
    var longer, shorter := Commands(calls[..i + 1], show), Commands(calls[..i], show);
    assert forall k :: 0 <= k < i ==> calls[..i + 1][k] == calls[..i][k];
    SnocPointwise(longer, shorter, Command(calls[i], show));
  }

  lemma SnocPointwise<T>(longer: seq<T>, shorter: seq<T>, x: T)
    requires |longer| == |shorter| + 1 && longer[|shorter|] == x
    requires forall k :: 0 <= k < |shorter| ==> longer[k] == shorter[k]
    ensures longer == shorter + [x]
  {
  }

  /** `pathBuilder`: the commands of the callback's calls, joined by single spaces. */
  method BuildPath(calls: seq<Call>, show: Show) returns (d: string)
    ensures d == Join(Commands(calls, show))
  {
    var builder := new PathBuilder(show);
    builder.Draw(calls);
    assert builder.path == Commands(calls, show);
    d := Join(builder.path);
  }

  /** The path text is every call's tokens, in call order, each between single spaces. */
  lemma {:induction false} PathTokens(calls: seq<Call>, show: Show)
    requires calls != [] && Printable(show)
    ensures Split(Join(Commands(calls, show))) == AllTokens(calls, show)
  {
    CommandsAreJoins(calls, show);
    JoinFlatten(CallTokenGroups(calls, show));
    AllTokensFlatten(calls, show);
    AllTokensAreTokens(calls, show);
    SplitJoin(AllTokens(calls, show));
  }

  function CallTokenGroups(calls: seq<Call>, show: Show): (r: seq<seq<string>>)
    ensures |r| == |calls| && forall i :: 0 <= i < |calls| ==> r[i] == CallTokens(calls[i], show)
  {
    if calls == [] then [] else [CallTokens(calls[0], show)] + CallTokenGroups(calls[1..], show)
  }

  lemma {:induction false} CommandsAreJoins(calls: seq<Call>, show: Show)
    ensures Commands(calls, show) == JoinEach(CallTokenGroups(calls, show))
  {
    if calls != [] {
      CommandsAreJoins(calls[1..], show);
    }
  }

  lemma {:induction false} AllTokensFlatten(calls: seq<Call>, show: Show)
    ensures AllTokens(calls, show) == Flatten(CallTokenGroups(calls, show))
  {
    if calls != [] {
      AllTokensFlatten(calls[1..], show);
    }
  }

  lemma {:induction false} AllTokensAreTokens(calls: seq<Call>, show: Show)
    requires calls != [] && Printable(show)
    ensures AllTokens(calls, show) != []
    ensures forall i :: 0 <= i < |AllTokens(calls, show)| ==> Token(AllTokens(calls, show)[i])
  {
    var head := CallTokens(calls[0], show);
    match calls[0] {
      case MoveTo(p, ct) => TokensAreTokens('M', [p], ct, show);
      case ClosePath => assert head == ["Z"];
      case Cubic(c1, c2, p, ct) => TokensAreTokens('C', [c1, c2, p], ct, show);
      case Smooth(c, p, ct) => TokensAreTokens('S', [c, p], ct, show);
    }
    var rest := AllTokens(calls[1..], show);
    if |calls| > 1 {
      AllTokensAreTokens(calls[1..], show);
    }
    assert AllTokens(calls, show) == head + rest;
    forall i | 0 <= i < |head + rest|
      ensures Token((head + rest)[i])
    {
      if i >= |head| {
        assert (head + rest)[i] == rest[i - |head|];
      }
    }
  }
}
