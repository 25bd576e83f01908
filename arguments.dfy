/**
 * The command-line framework of include/littlesmith/util/Arguments.h: the
 * option registry (`arguments`), the per-option record (`argument`) with
 * its typed getters and its check, the token scanner of `parse`, and the
 * layout of the header and usage text.
 *
 * An `argument` lives by value inside a std::map, so it is a datatype
 * here and `arguments` is a class whose map, index and key list the
 * methods reassign. Standard output is the sequence `out` of the lines
 * written so far, each line ended by std::endl.
 */
module CommandLine {
  import opened Outcomes
  import Text
  import Format
  import Versions

  // ---------------------------------------------------------------------
  // Values and option records
  // ---------------------------------------------------------------------

  /** point: two 32-bit coordinates. */
  datatype Point = Point(x: int, y: int)

  /** rectangle: two corners. */
  datatype Rectangle = Rectangle(upperLeft: Point, lowerRight: Point)

  datatype ArgumentType = STRING | INT | FLOAT | BOOL | POINT | RECTANGLE

  /**
   * argument: the declaration (names, type, default, optionality, switch),
   * the help text, the raw text the scanner stored, whether it was stored,
   * and the message of the last failed check.
   */
  datatype Argument = Argument(
    longName: string, shortName: string, description: string, kind: ArgumentType,
    defaultValue: string, isSwitch: bool, value: string, optional: bool, isSet: bool,
    message: string)

  /** The constructor of `argument`: nothing stored, no description, no message. */
  function NewArgument(longName: string, shortName: string, kind: ArgumentType,
                       defaultValue: string, optional: bool, isSwitch: bool): (r: Argument)
    ensures !r.isSet && TextValue(r) == defaultValue
    ensures r.description == "" && r.message == ""
  {
    Argument(longName, shortName, "", kind, defaultValue, isSwitch, "", optional, false, "")
  }

  /** The argument `defineSwitch` creates: BOOL, default "false", optional, a switch. */
  function SwitchArgument(longName: string, shortName: string): Argument {
    NewArgument(longName, shortName, BOOL, "false", true, true)
  }

  /** setValue. */
  function SetValue(a: Argument, value: string): (r: Argument)
    ensures r.isSet && TextValue(r) == value
    ensures r.longName == a.longName && r.shortName == a.shortName && r.kind == a.kind
            && r.defaultValue == a.defaultValue && r.optional == a.optional && r.isSwitch == a.isSwitch
            && r.description == a.description && r.message == a.message
  {
    a.(value := value, isSet := true)
  }

  /** textValue: the stored text once set, the default before. */
  function TextValue(a: Argument): string {
    if a.isSet then a.value else a.defaultValue
  }

  /** checkType. */
  function CheckType(a: Argument, kind: ArgumentType): (r: Outcome)
    ensures r.Pass? <==> a.kind == kind
    ensures r.Fail? ==> r.error == InvalidArgument("invalid type")
  {
    if a.kind != kind then Fail(InvalidArgument("invalid type")) else Pass
  }

  // ---------------------------------------------------------------------
  // value<T>
  // ---------------------------------------------------------------------

  /** value<std::string>: the text itself, for a STRING argument. */
  function ValueString(a: Argument): (r: Result<string>)
    ensures r.Ok? <==> a.kind == STRING
    ensures r.Ok? ==> r.value == (if a.isSet then a.value else a.defaultValue)
    ensures r.Err? ==> r.error == InvalidArgument("invalid type")
  {
    if CheckType(a, STRING).Fail? then Err(CheckType(a, STRING).error) else Ok(TextValue(a))
  }

  /** value<int>: strto<int> of the text, for an INT argument. */
  function ValueInt(a: Argument): (r: Result<int>)
    ensures r.Ok? <==> a.kind == INT && Format.SignedAccepts(TextValue(a), Format.INT32_MIN, Format.INT32_MAX)
    ensures r.Ok? ==> r.value == Format.SignedValue(Format.ScanDecimal(TextValue(a)).value)
    ensures r.Err? && a.kind == INT ==> r.error.what == "strto<int>"
  {
    if CheckType(a, INT).Fail? then Err(CheckType(a, INT).error)
    else
      var n :- Format.StrToInt(TextValue(a));
      Ok(n.0)
  }

  /** value<long>: strto<long> of the text, for an INT argument. */
  function ValueLong(a: Argument): (r: Result<int>)
    ensures r.Ok? <==> a.kind == INT && Format.SignedAccepts(TextValue(a), Format.INT64_MIN, Format.INT64_MAX)
    ensures r.Ok? ==> r.value == Format.SignedValue(Format.ScanDecimal(TextValue(a)).value)
    ensures r.Err? && a.kind == INT ==> r.error.what == "strto<long>"
  {
    if CheckType(a, INT).Fail? then Err(CheckType(a, INT).error)
    else
      var n :- Format.StrToLong(TextValue(a));
      Ok(n.0)
  }

  /** value<bool>: strto<bool> of the text, for a BOOL argument. */
  function ValueBool(a: Argument): (r: Result<bool>)
    ensures r.Ok? <==> a.kind == BOOL && Text.ToLower(TextValue(a)) in {"yes", "on", "true", "no", "off", "false"}
    ensures r.Ok? ==> r.value == (Text.ToLower(TextValue(a)) in {"yes", "on", "true"})
    ensures r.Err? ==> r.error.InvalidArgument?
  {
    if CheckType(a, BOOL).Fail? then Err(CheckType(a, BOOL).error)
    else
      var b :- Format.StrToBool(TextValue(a));
      Ok(b.0)
  }

  /** A pair read by parsePair<int>(text, "[:]") as a point. */
  function ParsePoint(text: string): (r: Result<Point>)
    ensures r.Ok? <==> Format.ParsePair(text, "[:]").Ok?
    ensures r.Ok? ==> Format.ParsePair(text, "[:]").value == (r.value.x, r.value.y)
    ensures r.Ok? ==> Format.INT32_MIN <= r.value.x <= Format.INT32_MAX && Format.INT32_MIN <= r.value.y <= Format.INT32_MAX
    ensures r.Err? ==> r.error == Format.ParsePair(text, "[:]").error
  {
    var p :- Format.ParsePair(text, "[:]");
    Ok(Point(p.0, p.1))
  }

  /** value<point>: "[x:y]", for a POINT argument. */
  function ValuePoint(a: Argument): (r: Result<Point>)
    ensures r.Ok? <==> a.kind == POINT && Format.ParsePair(TextValue(a), "[:]").Ok?
    ensures r.Ok? ==> Format.ParsePair(TextValue(a), "[:]").value == (r.value.x, r.value.y)
  {
    if CheckType(a, POINT).Fail? then Err(CheckType(a, POINT).error)
    else ParsePoint(TextValue(a))
  }

  /**
   * value<rectangle>: the text split on "-" must give exactly two pieces,
   * each a point "[x:y]". Every invalid_argument, from the piece count or
   * from either point, becomes "wrong format for rectangle"; an
   * out_of_range from strto<int> passes through.
   */
  function ValueRectangle(a: Argument): (r: Result<Rectangle>)
    ensures var parts := Text.Pieces(TextValue(a), "-");
            r.Ok? <==> a.kind == RECTANGLE && |parts| == 2
                       && ParsePoint(parts[0]).Ok? && ParsePoint(parts[1]).Ok?
    ensures var parts := Text.Pieces(TextValue(a), "-");
            r.Ok? ==> r.value == Rectangle(ParsePoint(parts[0]).value, ParsePoint(parts[1]).value)
    ensures a.kind == RECTANGLE && r.Err? && r.error.InvalidArgument? ==> r.error.what == "wrong format for rectangle"
    ensures r.Err? && r.error.OutOfRange? ==> r.error == OutOfRange("strto<int>")
  {
    if CheckType(a, RECTANGLE).Fail? then Err(CheckType(a, RECTANGLE).error)
    else
      var parts := Text.Pieces(TextValue(a), "-");
      if |parts| != 2 then Err(InvalidArgument("wrong format for rectangle"))
      else
        match ParsePoint(parts[0])
        case Err(e) => Err(Reformat(e))
        case Ok(p1) =>
          match ParsePoint(parts[1])
          case Err(e) => Err(Reformat(e))
          case Ok(p2) => Ok(Rectangle(p1, p2))
  }

  /** The catch block of value<rectangle>: invalid_argument is replaced, anything else passes. */
  function Reformat(e: Error): Error {
    if e.InvalidArgument? then InvalidArgument("wrong format for rectangle") else e
  }

  // ---------------------------------------------------------------------
  // check() and toString()
  // ---------------------------------------------------------------------

  /** strto<double>, which is not part of this model, as a test of the text of a FLOAT value. */
  type FloatCheck = string -> Outcome

  /** A getter's result with its value discarded. */
  function Discard<T>(r: Result<T>): Outcome {
    if r.Ok? then Pass else Fail(r.error)
  }

  /** checkValue: the getter of the declared type is called and its value dropped; INT is read as long. */
  function CheckValue(a: Argument, floatCheck: FloatCheck): Outcome {
    match a.kind
    case STRING => Discard(ValueString(a))
    case INT => Discard(ValueLong(a))
    case FLOAT => floatCheck(TextValue(a))
    case BOOL => Discard(ValueBool(a))
    case POINT => Discard(ValuePoint(a))
    case RECTANGLE => Discard(ValueRectangle(a))
  }

  /** The message check() stores when the getter throws. */
  function Rejected(longName: string, e: Error): string {
    if e.InvalidArgument? then "Value for argument '" + longName + "' could not be parsed."
    else "Value for argument '" + longName + "' is out of range."
  }

  /**
   * check(): None when it returns true, else Some of the message it stores.
   * An argument that was never set and is not optional fails without
   * looking at its text; otherwise the text (the stored one, else the
   * default) must pass the getter of its type.
   */
  function Check(a: Argument, floatCheck: FloatCheck): Option<string> {
    if !a.isSet && !a.optional then Some("Argument '" + a.longName + "' is not optional.")
    else
      match CheckValue(a, floatCheck)
      case Pass => None
      case Fail(e) => Some(Rejected(a.longName, e))
  }

  /**
   * What check() decides, per declared type: a required argument that was
   * not set is "not optional"; otherwise STRING always passes, and the
   * other types pass exactly when the getter check() calls returns a value,
   * a malformed text reading "could not be parsed" and a number beyond the
   * type "is out of range".
   */
  lemma CheckMeaning(a: Argument, floatCheck: FloatCheck)
    ensures var r := Check(a, floatCheck);
      (!a.isSet && !a.optional ==> r == Some("Argument '" + a.longName + "' is not optional."))
      && (a.isSet || a.optional ==>
        match a.kind
        case STRING => r == None
        case INT => r == (if ValueLong(a).Ok? then None else Some(Rejected(a.longName, ValueLong(a).error)))
        case FLOAT => r == (if floatCheck(TextValue(a)).Pass? then None else Some(Rejected(a.longName, floatCheck(TextValue(a)).error)))
        case BOOL => r == (if ValueBool(a).Ok? then None else Some("Value for argument '" + a.longName + "' could not be parsed."))
        case POINT => r == (if ValuePoint(a).Ok? then None else Some(Rejected(a.longName, ValuePoint(a).error)))
        case RECTANGLE => r == (if ValueRectangle(a).Ok? then None else Some(Rejected(a.longName, ValueRectangle(a).error))))
  {
  }

  /** toString: the token of the usage line, "[{-s|--long}[=]default]" and its variants. */
  function ToString(a: Argument): string {
    var names := "{-" + a.shortName + "|--" + a.longName + "}";
    var value := if a.isSwitch then "" else "[=]" + (if a.optional then a.defaultValue else "(value)");
    if a.optional then "[" + names + value + "]" else names + value
  }

  /**
   * The usage token names both forms of the option, is bracketed exactly
   * when the option is optional, and shows the default of an optional
   * value, "(value)" for a required one, and nothing for a switch.
   */
  lemma ToStringShape(a: Argument)
    ensures var t := ToString(a);
            var names := "{-" + a.shortName + "|--" + a.longName + "}";
            var open := if a.optional then 1 else 0;
            |t| == open + |names| + (if a.isSwitch then 0 else 3 + (if a.optional then |a.defaultValue| else 7)) + open
            && t[open..open + |names|] == names
            && (t[0] == '[' <==> a.optional)
            && (a.optional ==> t[|t| - 1] == ']')
            && (!a.isSwitch ==> t[open + |names|..open + |names| + 3] == "[=]")
  {
    var names := "{-" + a.shortName + "|--" + a.longName + "}";
    var value := if a.isSwitch then "" else "[=]" + (if a.optional then a.defaultValue else "(value)");
    if a.optional {
      ConcatParts("[" + names, value, "]");
      ConcatParts("[", names, value);
    } else {
      ConcatParts(names, value, "");
      assert names + value + "" == names + value;
    }
    if !a.isSwitch {
      var open := if a.optional then 1 else 0;
      var t := ToString(a);
      assert t[open + |names|..open + |names| + |value|] == value;
      assert t[open + |names|..open + |names| + 3] == value[..3];
    }
  }

  /** The three parts of a concatenation can be read back by slicing. */
  lemma ConcatParts(x: string, y: string, z: string)
    ensures var t := x + y + z;
            |t| == |x| + |y| + |z| && t[..|x|] == x && t[|x|..|x| + |y|] == y && t[|x| + |y|..] == z
  {
    var t := x + y + z;
    assert t[..|x|] == x;
    assert t[|x|..|x| + |y|] == y;
    assert t[|x| + |y|..] == z;
  }

  // ---------------------------------------------------------------------
  // The order of std::map<std::string, argument>
  // ---------------------------------------------------------------------

  /** std::less<std::string>: the lexicographic order of the characters. */
  predicate Less(a: string, b: string)
    decreases |a|
  {
    if a == [] then b != []
    else b != [] && (a[0] < b[0] || (a[0] == b[0] && Less(a[1..], b[1..])))
  }

  lemma {:induction false} LessIrreflexive(a: string)
    ensures !Less(a, a)
    decreases |a|
  {
    if a != [] {
      LessIrreflexive(a[1..]);
    }
  }

  lemma {:induction false} LessTransitive(a: string, b: string, c: string)
    requires Less(a, b) && Less(b, c)
    ensures Less(a, c)
    decreases |a|
  {
    if a != [] && a[0] == b[0] && b[0] == c[0] {
      LessTransitive(a[1..], b[1..], c[1..]);
    }
  }

  lemma {:induction false} LessTotal(a: string, b: string)
    requires a != b
    ensures Less(a, b) || Less(b, a)
    decreases |a|
  {
    if a != [] && b != [] && a[0] == b[0] {
      assert a == [a[0]] + a[1..] && b == [b[0]] + b[1..];
      LessTotal(a[1..], b[1..]);
    }
  }

  predicate Increasing(s: seq<string>) {
    forall i, j | 0 <= i < j < |s| :: Less(s[i], s[j])
  }

  /** One key put into its place in an increasing sequence. */
  function Insert(k: string, s: seq<string>): seq<string>
    decreases |s|
  {
    if s == [] then [k]
    else if Less(k, s[0]) || k == s[0] then [k] + s
    else [s[0]] + Insert(k, s[1..])
  }

  /** The keys in the order a std::map visits them. */
  function MapOrder(keys: seq<string>): seq<string>
    decreases |keys|
  {
    if keys == [] then [] else Insert(keys[|keys| - 1], MapOrder(keys[..|keys| - 1]))
  }

  /** Inserting a key adds exactly that key. */
  lemma {:induction false} InsertPermutes(k: string, s: seq<string>)
    ensures multiset(Insert(k, s)) == multiset(s) + multiset{k}
    decreases |s|
  {
    if s != [] && !(Less(k, s[0]) || k == s[0]) {
      InsertPermutes(k, s[1..]);
      assert s == [s[0]] + s[1..];
    }
  }

  /** Inserting a new key into an increasing sequence keeps it increasing. */
  lemma {:induction false} InsertSorted(k: string, s: seq<string>)
    requires Increasing(s) && k !in s
    ensures Increasing(Insert(k, s))
    decreases |s|
  {
    if s != [] {
      LessTotal(k, s[0]);
      if !Less(k, s[0]) {
        var t := s[1..];
        InsertSorted(k, t);
        InsertMembers(k, t);
        var r := Insert(k, t);
        forall j | 0 <= j < |r| ensures Less(s[0], r[j]) {
          if r[j] != k {
            assert r[j] in t;
            var i :| 0 <= i < |t| && t[i] == r[j];
            assert s[i + 1] == r[j];
          }
        }
      } else {
        forall j | 0 <= j < |s| ensures Less(k, s[j]) {
          if j > 0 {
            LessTransitive(k, s[0], s[j]);
          }
        }
      }
    }
  }

  /** The visiting order is increasing and holds each key once, when the keys are distinct. */
  lemma {:induction false} MapOrderSorted(keys: seq<string>)
    requires forall i, j | 0 <= i < j < |keys| :: keys[i] != keys[j]
    ensures Increasing(MapOrder(keys)) && multiset(MapOrder(keys)) == multiset(keys)
    decreases |keys|
  {
    if keys != [] {
      var init := keys[..|keys| - 1];
      MapOrderSorted(init);
      assert keys == init + [keys[|keys| - 1]];
      assert keys[|keys| - 1] !in multiset(init);
      InsertSorted(keys[|keys| - 1], MapOrder(init));
      InsertPermutes(keys[|keys| - 1], MapOrder(init));
    }
  }

  // ---------------------------------------------------------------------
  // The registry
  // ---------------------------------------------------------------------

  /**
   * Every argument is keyed by its short name and indexed by its long name,
   * and every entry of the long->short index leads back to its argument.
   */
  predicate Indexed(args: map<string, Argument>, index: map<string, string>) {
    (forall k | k in args :: args[k].shortName == k && args[k].longName in index && index[args[k].longName] == k)
    && (forall l | l in index :: index[l] in args && args[index[l]].longName == l)
  }

  /** `_keys` names every argument once, in the order of definition. */
  predicate Listed(args: map<string, Argument>, keys: seq<string>) {
    (forall i | 0 <= i < |keys| :: keys[i] in args)
    && (forall k | k in args :: k in keys)
    && Distinct(keys)
  }

  /** No element occurs twice: each one is missing from the elements before it. */
  predicate Distinct(s: seq<string>)
    decreases |s|
  {
    s == [] || (s[|s| - 1] !in s[..|s| - 1] && Distinct(s[..|s| - 1]))
  }

  /** A switch is an optional BOOL defaulting to "false", and only "true" is ever stored in it. */
  predicate SwitchesBoolean(args: map<string, Argument>) {
    forall k | k in args && args[k].isSwitch ::
      args[k].kind == BOOL && args[k].optional && args[k].defaultValue == "false"
      && (args[k].isSet ==> args[k].value == "true")
  }

  /** The invariants of the registry: index, key list and switches agree with the options. */
  predicate Registered(args: map<string, Argument>, index: map<string, string>, keys: seq<string>) {
    Indexed(args, index) && Listed(args, keys) && SwitchesBoolean(args)
  }

  /** The help switch -h / --help is defined. */
  predicate HasHelp(args: map<string, Argument>) {
    "h" in args && args["h"].isSwitch
  }

  /** Two arguments have the same declaration: they differ at most in what parse and check store. */
  predicate SameDeclaration(a: Argument, b: Argument) {
    a.longName == b.longName && a.shortName == b.shortName && a.description == b.description
    && a.kind == b.kind && a.defaultValue == b.defaultValue && a.isSwitch == b.isSwitch
    && a.optional == b.optional
  }

  /** Two maps hold the same declarations under the same keys. */
  predicate SameShape(a: map<string, Argument>, b: map<string, Argument>) {
    a.Keys == b.Keys && forall k | k in a :: SameDeclaration(a[k], b[k])
  }

  /** The second map differs from the first at most in the stored messages. */
  predicate OnlyMessages(a: map<string, Argument>, b: map<string, Argument>) {
    a.Keys == b.Keys
    && forall k | k in a :: SameDeclaration(a[k], b[k]) && b[k].value == a[k].value && b[k].isSet == a[k].isSet
  }

  /**
   * checkKey: a short name is its own key, a long name is looked up in the
   * index, and anything else is "Undefined argument '<key>'".
   */
  function CheckKey(args: map<string, Argument>, index: map<string, string>, key: string): (r: Result<string>)
    ensures r.Ok? <==> key in args || key in index
    ensures key in args ==> r == Ok(key)
    ensures r.Err? ==> r.error == InvalidArgument("Undefined argument '" + key + "'")
    ensures Indexed(args, index) && r.Ok? ==>
              r.value in args && (args[r.value].shortName == key || args[r.value].longName == key)
  {
    if key in args then Ok(key)
    else if key in index then Ok(index[key])
    else Err(InvalidArgument("Undefined argument '" + key + "'"))
  }

  // ---------------------------------------------------------------------
  // The token loop of parse
  // ---------------------------------------------------------------------

  /** The values of `status` that outlive an iteration: 0, 1 and 2 (3 is committed at once). */
  datatype Status = ExpectingKey | ExpectingValue | CollectingValue

  /** The variables of the token loop of parse, with the map and the messages it updates. */
  datatype Scanner = Scanner(status: Status, key: string, value: string,
                             args: map<string, Argument>, messages: seq<string>)

  /**
   * What the loop keeps: the index agrees with the map, switches hold
   * booleans, and a value being read belongs to a defined non-switch.
   */
  predicate Scanning(index: map<string, string>, sc: Scanner) {
    Indexed(sc.args, index) && SwitchesBoolean(sc.args)
    && (sc.status != ExpectingKey ==> sc.key in sc.args && !sc.args[sc.key].isSwitch)
  }

  /** A leading "--", else a leading "-", is removed. */
  function StripDashes(key: string): string {
    if |key| >= 2 && key[..2] == "--" then key[2..]
    else if |key| >= 1 && key[..1] == "-" then key[1..]
    else key
  }

  /**
   * The token loop reads `parts[1]` of a key token that holds '='; a token
   * whose only '=' ends it, such as "--x=", has a single part, and reading
   * the second one is undefined behaviour.
   */
  predicate StepDefined(sc: Scanner, token: string) {
    sc.status == ExpectingKey && Text.Find(token, "=").Some? ==> |Text.Pieces(token, "=")| >= 2
  }

  /** The key a token names: the whole token, or the text before its first '='. */
  function KeyPart(token: string): string {
    if Text.Find(token, "=").Some? then
      assert token != [];
      Text.Pieces(token, "=")[0]
    else token
  }

  /** status 3: the value is stored in the argument and the loop expects a key again. */
  function Commit(index: map<string, string>, sc: Scanner, key: string, value: string): (r: Scanner)
    requires Scanning(index, sc) && key in sc.args && (sc.args[key].isSwitch ==> value == "true")
    ensures Scanning(index, r) && SameShape(sc.args, r.args) && r.messages == sc.messages
    ensures r.args[key].isSet && r.args[key].value == value
  {
    var a := SetValue(sc.args[key], value);
    StoreKeepsShape(index, sc.args, key, a);
    sc.(status := ExpectingKey, key := key, value := value, args := sc.args[key := a])
  }

  /** Replacing an argument by one with the same declaration keeps the shape and the index. */
  lemma StoreKeepsShape(index: map<string, string>, args: map<string, Argument>, key: string, a: Argument)
    requires key in args && SameDeclaration(args[key], a)
    ensures SameShape(args, args[key := a])
    ensures Indexed(args, index) ==> Indexed(args[key := a], index)
  {
    assert args[key := a].Keys == args.Keys;
  }

  /** One iteration of the token loop of parse. */
  function Step(index: map<string, string>, sc: Scanner, token: string): (r: Scanner)
    requires Scanning(index, sc) && StepDefined(sc, token)
    ensures Scanning(index, r) && SameShape(sc.args, r.args)
  {
    match sc.status
    case ExpectingKey =>
      var hasValue := Text.Find(token, "=").Some?;
      var key := StripDashes(KeyPart(token));
      var value := if hasValue then Text.Pieces(token, "=")[1] else sc.value;
      (match CheckKey(sc.args, index, key)
       case Err(e) => sc.(status := ExpectingKey, key := key, value := value, messages := sc.messages + [e.what])
       case Ok(k) =>
         if sc.args[k].isSwitch then Commit(index, sc, k, "true")
         else if !hasValue then sc.(status := ExpectingValue, key := k, value := value)
         else if Format.CharAt(value, 0) == '"' then sc.(status := CollectingValue, key := k, value := value)
         else Commit(index, sc, k, value))
    case ExpectingValue =>
      if Format.CharAt(token, 0) == '"' then sc.(status := CollectingValue, value := token)
      else Commit(index, sc, sc.key, token)
    case CollectingValue =>
      var value := " " + token;
      assert |value| == 1 ==> value[|value| - 1..] == " ";
      if value[|value| - 1..] == "\"" && value[|value| - 2..] != "\\" then Commit(index, sc, sc.key, value)
      else sc.(value := value)
  }

  /** The token loop over a sequence of tokens; None when it reaches undefined behaviour. */
  function Run(index: map<string, string>, sc: Scanner, tokens: seq<string>): (r: Option<Scanner>)
    requires Scanning(index, sc)
    ensures r.Some? ==> Scanning(index, r.value) && SameShape(sc.args, r.value.args)
    decreases |tokens|
  {
    if tokens == [] then Some(sc)
    else
      match Run(index, sc, tokens[..|tokens| - 1])
      case None => None
      case Some(s) =>
        var t := tokens[|tokens| - 1];
        if StepDefined(s, t) then Some(Step(index, s, t)) else None
  }

  /**
   * An undefined key adds exactly one message, stores nothing and leaves the
   * loop expecting a key.
   */
  lemma StepUnknownKey(index: map<string, string>, sc: Scanner, token: string)
    requires Scanning(index, sc) && StepDefined(sc, token) && sc.status == ExpectingKey
    requires CheckKey(sc.args, index, StripDashes(KeyPart(token))).Err?
    ensures var r := Step(index, sc, token);
            r.status == ExpectingKey && r.args == sc.args
            && r.messages == sc.messages + ["Undefined argument '" + StripDashes(KeyPart(token)) + "'"]
  {
  }

  /** A switch stores "true", whatever value follows its '='. */
  lemma StepSwitch(index: map<string, string>, sc: Scanner, token: string)
    requires Scanning(index, sc) && StepDefined(sc, token) && sc.status == ExpectingKey
    requires var k := CheckKey(sc.args, index, StripDashes(KeyPart(token)));
             k.Ok? && sc.args[k.value].isSwitch
    ensures var k := CheckKey(sc.args, index, StripDashes(KeyPart(token))).value;
            var r := Step(index, sc, token);
            r.status == ExpectingKey && r.messages == sc.messages
            && r.args == sc.args[k := SetValue(sc.args[k], "true")]
  {
  }

  /**
   * A defined non-switch without '=' waits for its value in the next token;
   * with an inline value that starts with '"' it collects, even when that
   * value already ends with '"'; with any other inline value it stores it.
   */
  lemma StepValueKey(index: map<string, string>, sc: Scanner, token: string)
    requires Scanning(index, sc) && StepDefined(sc, token) && sc.status == ExpectingKey
    requires var k := CheckKey(sc.args, index, StripDashes(KeyPart(token)));
             k.Ok? && !sc.args[k.value].isSwitch
    ensures var k := CheckKey(sc.args, index, StripDashes(KeyPart(token))).value;
            var r := Step(index, sc, token);
            r.messages == sc.messages && r.key == k
            && (Text.Find(token, "=").None? ==> r.status == ExpectingValue && r.args == sc.args)
            && (Text.Find(token, "=").Some? ==>
                  var v := Text.Pieces(token, "=")[1];
                  if v != [] && v[0] == '"' then r.status == CollectingValue && r.value == v && r.args == sc.args
                  else r.status == ExpectingKey && r.args == sc.args[k := SetValue(sc.args[k], v)])
  {
  }

  /** The token after a key is its value, unless it opens a quote. */
  lemma StepValueToken(index: map<string, string>, sc: Scanner, token: string)
    requires Scanning(index, sc) && sc.status == ExpectingValue
    ensures var r := Step(index, sc, token);
            r.messages == sc.messages
            && if token != [] && token[0] == '"' then r.status == CollectingValue && r.value == token && r.args == sc.args
               else r.status == ExpectingKey && r.args == sc.args[sc.key := SetValue(sc.args[sc.key], token)]
  {
  }

  /**
   * While collecting, the value is replaced by " " + token (not extended),
   * and the quote closes on any token that ends with '"': the test for a
   * preceding backslash compares two characters with one and never fails.
   */
  lemma StepCollect(index: map<string, string>, sc: Scanner, token: string)
    requires Scanning(index, sc) && sc.status == CollectingValue
    ensures var r := Step(index, sc, token);
            var closes := token != [] && token[|token| - 1] == '"';
            r.messages == sc.messages && r.value == " " + token
            && (r.status == ExpectingKey <==> closes)
            && (closes ==> r.args == sc.args[sc.key := SetValue(sc.args[sc.key], " " + token)])
            && (!closes ==> r.args == sc.args && r.status == CollectingValue)
  {
    var value := " " + token;
    if token == [] {
      assert value[|value| - 1..] == " ";
    } else {
      assert value[|value| - 1..] == [token[|token| - 1]];
      assert |value[|value| - 2..]| == 2;
      assert value[|value| - 2..] != "\\";
    }
  }

  /** A message of the form checkKey throws for an undefined key. */
  ghost predicate NamesUndefinedKey(m: string) {
    exists key :: m == "Undefined argument '" + key + "'"
  }

  /** One iteration adds at most one message, and only for an undefined key. */
  lemma StepMessages(index: map<string, string>, sc: Scanner, token: string)
    requires Scanning(index, sc) && StepDefined(sc, token)
    ensures var r := Step(index, sc, token);
            r.messages == sc.messages
            || (|r.messages| == |sc.messages| + 1 && r.messages[..|sc.messages|] == sc.messages
                && NamesUndefinedKey(r.messages[|sc.messages|]))
  {
    if sc.status == ExpectingKey {
      var key := StripDashes(KeyPart(token));
      if CheckKey(sc.args, index, key).Err? {
        StepUnknownKey(index, sc, token);
        var r := Step(index, sc, token);
        assert r.messages[|sc.messages|] == "Undefined argument '" + key + "'";
      }
    }
  }

  /** Scanning only appends messages, each naming an undefined key. */
  lemma {:induction false} RunMessages(index: map<string, string>, sc: Scanner, tokens: seq<string>)
    requires Scanning(index, sc) && Run(index, sc, tokens).Some?
    ensures var r := Run(index, sc, tokens).value;
            |r.messages| >= |sc.messages| && r.messages[..|sc.messages|] == sc.messages
            && forall i | |sc.messages| <= i < |r.messages| :: NamesUndefinedKey(r.messages[i])
    decreases |tokens|
  {
    if tokens != [] {
      var init := tokens[..|tokens| - 1];
      RunMessages(index, sc, init);
      var s := Run(index, sc, init).value;
      var t := tokens[|tokens| - 1];
      var r := Step(index, s, t);
      assert Run(index, sc, tokens) == Some(r);
      StepMessages(index, s, t);
      if r.messages != s.messages {
        UndefinedTail(sc.messages, s.messages, r.messages);
      }
    }
  }

  /** A run of "undefined argument" messages extended by one more such message. */
  lemma UndefinedTail(head: seq<string>, before: seq<string>, after: seq<string>)
    requires |head| <= |before| && before[..|head|] == head
    requires forall i | |head| <= i < |before| :: NamesUndefinedKey(before[i])
    requires |after| == |before| + 1 && after[..|before|] == before
    requires NamesUndefinedKey(after[|before|])
    ensures after[..|head|] == head
    ensures forall i | |head| <= i < |after| :: NamesUndefinedKey(after[i])
  {
    forall i | |head| <= i < |after|
      ensures NamesUndefinedKey(after[i])
    {
      if i < |before| {
        assert after[i] == before[i];
      }
    }
  }

  // ---------------------------------------------------------------------
  // After the token loop
  // ---------------------------------------------------------------------

  /**
   * The check loop over the keys in `order`: a failing argument gets its
   * message stored and the message appended.
   */
  function CheckAll(args: map<string, Argument>, order: seq<string>, floatCheck: FloatCheck)
    : (r: (map<string, Argument>, seq<string>))
    requires forall i | 0 <= i < |order| :: order[i] in args
    ensures r.0.Keys == args.Keys
    decreases |order|
  {
    if order == [] then (args, [])
    else
      CheckStep(CheckAll(args, order[..|order| - 1], floatCheck), order[|order| - 1], floatCheck)
  }

  /** The check loop one option further. */
  lemma CheckAllSnoc(args: map<string, Argument>, order: seq<string>, j: nat, floatCheck: FloatCheck)
    requires j < |order| && forall i | 0 <= i < |order| :: order[i] in args
    ensures order[j] in CheckAll(args, order[..j], floatCheck).0
    ensures CheckAll(args, order[..j + 1], floatCheck)
              == CheckStep(CheckAll(args, order[..j], floatCheck), order[j], floatCheck)
  {
    assert order[..j + 1][..j] == order[..j];
  }

  /** One iteration of the check loop: a failing check stores its message and reports it. */
  function CheckStep(prev: (map<string, Argument>, seq<string>), k: string, floatCheck: FloatCheck)
    : (r: (map<string, Argument>, seq<string>))
    requires k in prev.0
    ensures r.0.Keys == prev.0.Keys
  {
    match Check(prev.0[k], floatCheck)
    case None => prev
    case Some(m) => (prev.0[k := prev.0[k].(message := m)], prev.1 + [m])
  }

  /** The messages of the failing arguments of `order`, in that order. */
  function Failures(args: map<string, Argument>, order: seq<string>, floatCheck: FloatCheck): seq<string>
    requires forall i | 0 <= i < |order| :: order[i] in args
    decreases |order|
  {
    if order == [] then []
    else
      Failures(args, order[..|order| - 1], floatCheck)
      + match Check(args[order[|order| - 1]], floatCheck)
        case None => []
        case Some(m) => [m]
  }

  /** The check loop adds one message per failing argument, in key order. */
  lemma {:induction false} CheckAllMessages(args: map<string, Argument>, order: seq<string>, floatCheck: FloatCheck)
    requires forall i | 0 <= i < |order| :: order[i] in args
    ensures CheckAll(args, order, floatCheck).1 == Failures(args, order, floatCheck)
    decreases |order|
  {
    if order != [] {
      var init := order[..|order| - 1];
      var k := order[|order| - 1];
      CheckAllMessages(args, init, floatCheck);
      CheckAllKeepsCheck(args, init, k, floatCheck);
    }
  }

  /** Storing messages does not change how a later check of the same key decides. */
  lemma CheckAllKeepsCheck(args: map<string, Argument>, order: seq<string>, k: string, floatCheck: FloatCheck)
    requires k in args && forall i | 0 <= i < |order| :: order[i] in args
    ensures k in CheckAll(args, order, floatCheck).0
    ensures Check(CheckAll(args, order, floatCheck).0[k], floatCheck) == Check(args[k], floatCheck)
  {
    CheckAllArguments(args, order, floatCheck);
    var a := CheckAll(args, order, floatCheck).0[k];
    CheckIgnoresMessage(args[k], a.message, floatCheck);
    assert a == args[k].(message := a.message);
  }

  /** The check loop changes nothing but the messages stored in the failing arguments. */
  lemma {:induction false} CheckAllArguments(args: map<string, Argument>, order: seq<string>, floatCheck: FloatCheck)
    requires forall i | 0 <= i < |order| :: order[i] in args
    ensures forall k | k in args :: CheckAll(args, order, floatCheck).0[k] == Checked(args, order, floatCheck, k)
    decreases |order|
  {
    if order != [] {
      var init := order[..|order| - 1];
      var k := order[|order| - 1];
      assert order == init + [k];
      CheckAllArguments(args, init, floatCheck);
      forall j | j in args
        ensures CheckAll(args, order, floatCheck).0[j] == Checked(args, order, floatCheck, j)
      {
        CheckedAfter(args, init, k, floatCheck, j);
        if j == k {
          CheckAllLast(args, init, k, floatCheck);
        } else {
          CheckAllOther(args, init, k, floatCheck, j);
        }
      }
    }
  }

  /** The check loop changes only the stored messages. */
  lemma CheckAllShape(args: map<string, Argument>, order: seq<string>, floatCheck: FloatCheck)
    requires forall i | 0 <= i < |order| :: order[i] in args
    ensures OnlyMessages(args, CheckAll(args, order, floatCheck).0)
  {
    CheckAllArguments(args, order, floatCheck);
  }

  lemma CheckAllLast(args: map<string, Argument>, init: seq<string>, k: string, floatCheck: FloatCheck)
    requires forall i | 0 <= i < |init| :: init[i] in args
    requires k in args && CheckAll(args, init, floatCheck).0[k] == Checked(args, init, floatCheck, k)
    ensures CheckAll(args, init + [k], floatCheck).0[k] == Checked(args, [k], floatCheck, k)
  {
    var prev := CheckAll(args, init, floatCheck);
    CheckAllAppend(args, init, k, floatCheck);
    CheckIgnoresMessage(args[k], prev.0[k].message, floatCheck);
  }

  lemma CheckAllOther(args: map<string, Argument>, init: seq<string>, k: string, floatCheck: FloatCheck, j: string)
    requires forall i | 0 <= i < |init| :: init[i] in args
    requires k in args && j in args && j != k
    ensures CheckAll(args, init + [k], floatCheck).0[j] == CheckAll(args, init, floatCheck).0[j]
  {
    CheckAllAppend(args, init, k, floatCheck);
  }

  lemma CheckAllAppend(args: map<string, Argument>, init: seq<string>, k: string, floatCheck: FloatCheck)
    requires forall i | 0 <= i < |init| :: init[i] in args
    requires k in args
    ensures k in CheckAll(args, init, floatCheck).0
    ensures CheckAll(args, init + [k], floatCheck) == CheckStep(CheckAll(args, init, floatCheck), k, floatCheck)
  {
    assert (init + [k])[..|init|] == init;
  }

  lemma CheckedAfter(args: map<string, Argument>, init: seq<string>, k: string, floatCheck: FloatCheck, j: string)
    requires j in args
    ensures Checked(args, init + [k], floatCheck, j)
            == if j == k then Checked(args, [k], floatCheck, k) else Checked(args, init, floatCheck, j)
  {
    assert j in init + [k] <==> j in init || j == k;
  }

  /** An argument after the check loop over `order`. */
  function Checked(args: map<string, Argument>, order: seq<string>, floatCheck: FloatCheck, k: string): Argument
    requires k in args
  {
    if k in order && Check(args[k], floatCheck).Some? then args[k].(message := Check(args[k], floatCheck).value)
    else args[k]
  }

  lemma CheckIgnoresMessage(a: Argument, m: string, floatCheck: FloatCheck)
    ensures Check(a.(message := m), floatCheck) == Check(a, floatCheck)
  {
    assert TextValue(a.(message := m)) == TextValue(a);
  }

  /** The keys a std::map visits are the keys put into it, each once. */
  lemma {:induction false} MapOrderMembers(keys: seq<string>)
    ensures |MapOrder(keys)| == |keys| && forall x :: x in MapOrder(keys) <==> x in keys
    decreases |keys|
  {
    if keys != [] {
      var init := keys[..|keys| - 1];
      MapOrderMembers(init);
      InsertMembers(keys[|keys| - 1], MapOrder(init));
      assert keys == init + [keys[|keys| - 1]];
    }
  }

  lemma {:induction false} InsertMembers(k: string, s: seq<string>)
    ensures |Insert(k, s)| == |s| + 1 && forall x :: x in Insert(k, s) <==> x == k || x in s
    decreases |s|
  {
    if s != [] && !(Less(k, s[0]) || k == s[0]) {
      InsertMembers(k, s[1..]);
      assert s == [s[0]] + s[1..];
    }
  }

  /** Every key a std::map visits is an option. */
  lemma MapOrderListed(args: map<string, Argument>, keys: seq<string>)
    requires forall i | 0 <= i < |keys| :: keys[i] in args
    ensures forall i | 0 <= i < |MapOrder(keys)| :: MapOrder(keys)[i] in args
  {
    MapOrderMembers(keys);
    forall i | 0 <= i < |MapOrder(keys)|
      ensures MapOrder(keys)[i] in args
    {
      assert MapOrder(keys)[i] in keys;
    }
  }

  /**
   * The whole of parse except the output: the token loop from an empty
   * state, "Bad argument format." when a value is still open at the end,
   * then check() on every argument in key order.
   */
  function Parsed(index: map<string, string>, args: map<string, Argument>, keys: seq<string>,
                  messages: seq<string>, tokens: seq<string>, floatCheck: FloatCheck)
    : (r: (map<string, Argument>, seq<string>))
    requires Indexed(args, index) && SwitchesBoolean(args) && Listed(args, keys)
    requires Run(index, Scanner(ExpectingKey, "", "", args, messages), tokens).Some?
    ensures SameShape(args, r.0) && SwitchesBoolean(r.0)
  {
    var sc := Run(index, Scanner(ExpectingKey, "", "", args, messages), tokens).value;
    var order := MapOrder(keys);
    MapOrderListed(args, keys);
    var checked := CheckAll(sc.args, order, floatCheck);
    CheckAllShape(sc.args, order, floatCheck);
    OnlyMessagesShape(args, sc.args, checked.0);
    (checked.0, sc.messages + (if sc.status != ExpectingKey then ["Bad argument format."] else []) + checked.1)
  }

  /** Changing only the stored messages keeps the declarations and what the scanner stored. */
  lemma OnlyMessagesShape(declared: map<string, Argument>, a: map<string, Argument>, b: map<string, Argument>)
    requires SameShape(declared, a) && OnlyMessages(a, b)
    ensures SameShape(declared, b) && (SwitchesBoolean(a) ==> SwitchesBoolean(b))
  {
  }

  /** A switch reads as a boolean that is true exactly when it was given. */
  lemma SwitchValue(args: map<string, Argument>, k: string)
    requires SwitchesBoolean(args) && k in args && args[k].isSwitch
    ensures ValueBool(args[k]) == Ok(args[k].isSet)
  {
    assert Text.ToLower("true") == "true";
    assert Text.ToLower("false") == "false";
  }

  // ---------------------------------------------------------------------
  // printHeader and printUsage
  // ---------------------------------------------------------------------

  /** The width of the usage text. */
  const WIDTH: nat := 80

  /** printHeader: name and version, the copyright if any, a blank line, the wrapped description if any. */
  function HeaderLines(application: string, version: Versions.Version, copyright: string, description: string)
    : seq<string>
  {
    [application + " " + Versions.ToString(version)]
    + (if copyright != [] then [copyright] else [])
    + [""]
    + (if description != [] then Text.Block(description, WIDTH, Text.Left) + [""] else [])
  }

  /** printUsage: "Error:" or "Errors:", the messages and a blank line, when there are messages. */
  function ErrorLines(messages: seq<string>): seq<string> {
    if messages == [] then []
    else ["Error" + (if |messages| > 1 then "s" else "") + ":"] + messages + [""]
  }

  /** The usage line being written: the lines ended so far, the current line, and the counter `n`. */
  datatype UsageRow = UsageRow(lines: seq<string>, current: string, n: nat)

  /**
   * The loop that writes the usage tokens: a token goes on a new line,
   * indented by the length of the application name, when the counter plus
   * the token and its blank would pass column 80. The counter is then
   * increased by the indent instead of being reset to it.
   */
  function Wrap(application: string, args: map<string, Argument>, keys: seq<string>): UsageRow
    requires forall i | 0 <= i < |keys| :: keys[i] in args
    decreases |keys|
  {
    if keys == [] then UsageRow([], application, |application|)
    else
      var w := Wrap(application, args, keys[..|keys| - 1]);
      var a := ToString(args[keys[|keys| - 1]]);
      if w.n + |a| + 1 > WIDTH then
        UsageRow(w.lines + [w.current], Text.Spaces(|application|) + " " + a, w.n + |application| + |a| + 1)
      else UsageRow(w.lines, w.current + " " + a, w.n + |a| + 1)
  }

  /**
   * Until the first break the counter is the length of the line; after a
   * break it is past column 80 and never comes back, because it is never
   * reset.
   */
  lemma {:induction false} WrapCounter(application: string, args: map<string, Argument>, keys: seq<string>)
    requires forall i | 0 <= i < |keys| :: keys[i] in args
    ensures var w := Wrap(application, args, keys);
            (w.lines == [] ==> w.n == |w.current|)
            && (w.lines != [] ==> w.n > WIDTH)
            && w.n >= |application|
    decreases |keys|
  {
    if keys != [] {
      WrapCounter(application, args, keys[..|keys| - 1]);
    }
  }

  /**
   * So once the usage line has been broken, every later token starts a new
   * line of its own, however short it is.
   */
  lemma WrapAfterBreak(application: string, args: map<string, Argument>, keys: seq<string>, k: string)
    requires forall i | 0 <= i < |keys| :: keys[i] in args
    requires k in args && Wrap(application, args, keys).lines != []
    ensures var w := Wrap(application, args, keys);
            Wrap(application, args, keys + [k])
              == UsageRow(w.lines + [w.current], Text.Spaces(|application|) + " " + ToString(args[k]),
                          w.n + |application| + |ToString(args[k])| + 1)
  {
    WrapCounter(application, args, keys);
    assert (keys + [k])[..|keys|] == keys;
  }

  /** The longest long name plus short name over the keys. */
  function MaxNames(args: map<string, Argument>, keys: seq<string>): (r: nat)
    requires forall i | 0 <= i < |keys| :: keys[i] in args
    ensures forall i | 0 <= i < |keys| :: |args[keys[i]].longName| + |args[keys[i]].shortName| <= r
    decreases |keys|
  {
    if keys == [] then 0
    else
      var m := MaxNames(args, keys[..|keys| - 1]);
      var a := args[keys[|keys| - 1]];
      assert forall i | 0 <= i < |keys| - 1 :: keys[..|keys| - 1][i] == keys[i];
      if |a.longName| + |a.shortName| > m then |a.longName| + |a.shortName| else m
  }

  /** The maximum is reached by one of the keys. */
  lemma {:induction false} MaxNamesIsMax(args: map<string, Argument>, keys: seq<string>)
    requires forall i | 0 <= i < |keys| :: keys[i] in args
    ensures keys != [] ==> exists i | 0 <= i < |keys| :: |args[keys[i]].longName| + |args[keys[i]].shortName| == MaxNames(args, keys)
    decreases |keys|
  {
    if keys != [] {
      var init := keys[..|keys| - 1];
      MaxNamesIsMax(args, init);
      assert forall i | 0 <= i < |init| :: keys[i] == init[i];
      var k := keys[|keys| - 1];
      if init != [] && MaxNames(args, keys) == MaxNames(args, init) {
        var i :| 0 <= i < |init| && |args[init[i]].longName| + |args[init[i]].shortName| == MaxNames(args, init);
        assert keys[i] == init[i];
      } else {
        assert |args[keys[|keys| - 1]].longName| + |args[keys[|keys| - 1]].shortName| == MaxNames(args, keys);
      }
    }
  }

  /** The names and descriptions a usage text can be laid out for. */
  predicate Describable(a: Argument, column: nat) {
    |a.longName| + |a.shortName| + 8 <= column < WIDTH && Text.Strip(a.description) != []
  }

  /**
   * The lines of one option: "--long | -s: " padded to the column and the
   * first line of its description wrapped to 80 minus the column, the
   * other lines indented to the column, then for an optional value the
   * "optional" line with its default.
   */
  function OptionLines(a: Argument, column: nat): seq<string>
    requires Describable(a, column)
  {
    Text.BlockNotEmpty(a.description, WIDTH - column, Text.Left);
    var lines := Text.Block(a.description, WIDTH - column, Text.Left);
    var head := "--" + a.longName + " | -" + a.shortName + ": ";
    [head + Text.Spaces(column - |head|) + lines[0]]
    + Indented(column, lines[1..])
    + (if a.optional && !a.isSwitch then [OptionalLine(a, column)] else [])
  }

  /** "optional", and " - default: <value>" when there is a default, under the descriptions. */
  function OptionalLine(a: Argument, column: nat): string {
    if a.defaultValue != [] then Text.Spaces(column) + "optional" + " - default: " + a.defaultValue
    else Text.Spaces(column) + "optional"
  }

  /**
   * The description of an option starts at the column on every line and
   * no description line passes column 80; the first line starts with the
   * option's names.
   */
  lemma OptionLinesLayout(a: Argument, column: nat)
    requires Describable(a, column)
    ensures var lines := Text.Block(a.description, WIDTH - column, Text.Left);
            var r := OptionLines(a, column);
            var head := "--" + a.longName + " | -" + a.shortName + ": ";
            |lines| > 0
            && |r| == |lines| + (if a.optional && !a.isSwitch then 1 else 0)
            && (forall i | 0 <= i < |lines| :: column <= |r[i]| <= WIDTH && r[i][column..] == lines[i])
            && r[0][..column] == head + Text.Spaces(column - |head|)
            && (forall i | 1 <= i < |lines| :: r[i][..column] == Text.Spaces(column))
  {
    Text.BlockLines(a.description, WIDTH - column, Text.Left);
    var lines := Text.Block(a.description, WIDTH - column, Text.Left);
    var r := OptionLines(a, column);
    var head := "--" + a.longName + " | -" + a.shortName + ": ";
    forall i | 0 <= i < |lines|
      ensures column <= |r[i]| <= WIDTH && r[i][column..] == lines[i]
      ensures r[i][..column] == if i == 0 then head + Text.Spaces(column - |head|) else Text.Spaces(column)
    {
      OptionLineRow(a, column, i);
      SplitAt(if i == 0 then head + Text.Spaces(column - |head|) else Text.Spaces(column), lines[i]);
    }
    OptionLineRow(a, column, 0);
  }

  lemma SplitAt(x: string, y: string)
    ensures (x + y)[..|x|] == x && (x + y)[|x|..] == y
  {
    assert (x + y)[..|x|] == x;
  }

  /** One row of an option's lines: the names or the indent, then a description line. */
  lemma OptionLineRow(a: Argument, column: nat, i: nat)
    requires Describable(a, column)
    ensures var lines := Text.Block(a.description, WIDTH - column, Text.Left);
            var head := "--" + a.longName + " | -" + a.shortName + ": ";
            |lines| > 0 && |OptionLines(a, column)| == |lines| + (if a.optional && !a.isSwitch then 1 else 0)
            && (i < |lines| ==>
                  OptionLines(a, column)[i]
                  == (if i == 0 then head + Text.Spaces(column - |head|) else Text.Spaces(column)) + lines[i])
  {
    var lines := Text.Block(a.description, WIDTH - column, Text.Left);
    var head := "--" + a.longName + " | -" + a.shortName + ": ";
    Text.BlockLines(a.description, WIDTH - column, Text.Left);
    var first := [head + Text.Spaces(column - |head|) + lines[0]];
    var rest := Indented(column, lines[1..]);
    var r := first + rest + (if a.optional && !a.isSwitch then [OptionalLine(a, column)] else []);
    assert OptionLines(a, column) == r;
    if 0 < i < |lines| {
      assert r[i] == rest[i - 1];
    }
  }

  /** Every option of the keys can be laid out in the column. */
  predicate AllDescribable(args: map<string, Argument>, keys: seq<string>, column: nat) {
    forall i | 0 <= i < |keys| :: keys[i] in args && Describable(args[keys[i]], column)
  }

  /** The option lines of the keys, in declaration order. */
  function OptionBlock(args: map<string, Argument>, keys: seq<string>, column: nat): seq<string>
    requires AllDescribable(args, keys, column)
    decreases |keys|
  {
    if keys == [] then []
    else OptionBlock(args, keys[..|keys| - 1], column) + OptionLines(args[keys[|keys| - 1]], column)
  }

  /**
   * What printUsage needs: the column, the longest names plus 8, stays
   * left of column 80 (80 minus it would wrap around, and a width of 0
   * never ends), and every option has a description that is not blank
   * (the first line of its block is read).
   */
  predicate Printable(args: map<string, Argument>, keys: seq<string>) {
    (forall i | 0 <= i < |keys| :: keys[i] in args)
    && MaxNames(args, keys) + 8 < WIDTH
    && forall i | 0 <= i < |keys| :: Text.Strip(args[keys[i]].description) != []
  }

  /** printUsage after the header: errors, "Usage:", the usage line, a blank line, the options. */
  function UsageLines(application: string, messages: seq<string>, args: map<string, Argument>, keys: seq<string>)
    : seq<string>
    requires Printable(args, keys)
  {
    var w := Wrap(application, args, keys);
    ErrorLines(messages) + ["Usage:"] + (w.lines + [w.current, ""]) + OptionBlock(args, keys, MaxNames(args, keys) + 8)
  }

  lemma AppendAssociates(a: seq<string>, b: seq<string>, c: seq<string>)
    ensures (a + b) + c == a + (b + c)
  {
  }

  /** What printUsage writes: the header unless it was printed already, then the usage text. */
  function Report(application: string, version: Versions.Version, copyright: string, description: string,
                  printed: bool, messages: seq<string>, args: map<string, Argument>, keys: seq<string>)
    : seq<string>
    requires Printable(args, keys)
  {
    (if printed then [] else HeaderLines(application, version, copyright, description))
    + UsageLines(application, messages, args, keys)
  }

  /**
   * The layout reads only the declarations, not what parse and check
   * stored: the wrapped usage line, the column and the option lines are
   * the same for two maps of the same shape.
   */
  lemma LayoutShape(a: map<string, Argument>, b: map<string, Argument>, application: string, keys: seq<string>)
    requires SameShape(a, b) && Printable(a, keys)
    ensures Printable(b, keys) && MaxNames(a, keys) == MaxNames(b, keys)
    ensures Wrap(application, a, keys) == Wrap(application, b, keys)
    ensures OptionBlock(a, keys, MaxNames(a, keys) + 8) == OptionBlock(b, keys, MaxNames(b, keys) + 8)
  {
    PrintableShape(a, b, keys);
    WrapShape(a, b, application, keys);
    OptionBlockShape(a, b, keys, MaxNames(a, keys) + 8);
  }

  /** Whether the usage text can be laid out depends only on the declarations. */
  lemma PrintableShape(a: map<string, Argument>, b: map<string, Argument>, keys: seq<string>)
    requires SameShape(a, b) && Printable(a, keys)
    ensures Printable(b, keys) && MaxNames(a, keys) == MaxNames(b, keys)
  {
    MaxNamesShape(a, b, keys);
    forall i | 0 <= i < |keys|
      ensures Text.Strip(b[keys[i]].description) != []
    {
      assert SameDeclaration(a[keys[i]], b[keys[i]]);
    }
  }

  lemma {:induction false} MaxNamesShape(a: map<string, Argument>, b: map<string, Argument>, keys: seq<string>)
    requires SameShape(a, b) && forall i | 0 <= i < |keys| :: keys[i] in a
    ensures MaxNames(a, keys) == MaxNames(b, keys)
    decreases |keys|
  {
    if keys != [] {
      var k := keys[|keys| - 1];
      assert SameDeclaration(a[k], b[k]);
      MaxNamesShape(a, b, keys[..|keys| - 1]);
    }
  }

  lemma {:induction false} WrapShape(a: map<string, Argument>, b: map<string, Argument>, application: string, keys: seq<string>)
    requires SameShape(a, b) && forall i | 0 <= i < |keys| :: keys[i] in a
    ensures Wrap(application, a, keys) == Wrap(application, b, keys)
    decreases |keys|
  {
    if keys != [] {
      var k := keys[|keys| - 1];
      assert SameDeclaration(a[k], b[k]);
      assert ToString(a[k]) == ToString(b[k]);
      WrapShape(a, b, application, keys[..|keys| - 1]);
    }
  }

  lemma {:induction false} OptionBlockShape(a: map<string, Argument>, b: map<string, Argument>, keys: seq<string>, column: nat)
    requires SameShape(a, b) && AllDescribable(a, keys, column)
    ensures AllDescribable(b, keys, column) && OptionBlock(a, keys, column) == OptionBlock(b, keys, column)
    decreases |keys|
  {
    if keys != [] {
      var k := keys[|keys| - 1];
      assert SameDeclaration(a[k], b[k]);
      OptionBlockShape(a, b, keys[..|keys| - 1], column);
    }
  }

  /** Lines indented to a column: the continuation lines of a description. */
  function Indented(column: nat, lines: seq<string>): (r: seq<string>)
    ensures |r| == |lines| && forall i | 0 <= i < |lines| :: r[i] == Text.Spaces(column) + lines[i]
  {
    seq(|lines|, i requires 0 <= i < |lines| => Text.Spaces(column) + lines[i])
  }

  /** A longer token list keeps the run defined on each of its prefixes. */
  lemma {:induction false} RunPrefix(index: map<string, string>, sc: Scanner, tokens: seq<string>, i: nat)
    requires Scanning(index, sc) && i <= |tokens| && Run(index, sc, tokens).Some?
    ensures Run(index, sc, tokens[..i]).Some?
    decreases |tokens|
  {
    if i < |tokens| {
      var init := tokens[..|tokens| - 1];
      RunPrefix(index, sc, init, i);
      assert init[..i] == tokens[..i];
    } else {
      assert tokens[..i] == tokens;
    }
  }

  /** The run over one more token of the list is one more step, which is defined. */
  lemma RunNext(index: map<string, string>, sc: Scanner, tokens: seq<string>, i: nat)
    requires Scanning(index, sc) && i < |tokens| && Run(index, sc, tokens).Some?
    ensures Run(index, sc, tokens[..i]).Some?
    ensures var s := Run(index, sc, tokens[..i]).value;
            StepDefined(s, tokens[i]) && Run(index, sc, tokens[..i + 1]) == Some(Step(index, s, tokens[i]))
  {
    RunPrefix(index, sc, tokens, i + 1);
    RunPrefix(index, sc, tokens, i);
    assert tokens[..i + 1][..i] == tokens[..i];
  }

  /** What parse leaves: its verdict, the options and messages, whether the header is out, and the output. */
  datatype ParseOutcome = ParseOutcome(ok: bool, args: map<string, Argument>, messages: seq<string>,
                                       printed: bool, out: seq<string>)

  /**
   * What parse needs of its input: a registry with the help switch, a token
   * run without undefined behaviour, and a layout printUsage can draw
   * whenever parse prints it.
   */
  predicate Parsable(index: map<string, string>, args: map<string, Argument>, keys: seq<string>,
                     messages: seq<string>, tokens: seq<string>, floatCheck: FloatCheck)
  {
    Registered(args, index, keys) && HasHelp(args)
    && Run(index, Scanner(ExpectingKey, "", "", args, messages), tokens).Some?
    && var p := Parsed(index, args, keys, messages, tokens, floatCheck);
       p.1 != [] || p.0["h"].isSet ==> Printable(args, keys)
  }

  /**
   * parse as a whole: the token loop and the checks give the options and
   * messages; the verdict is false when there is a message or --help was
   * given, and then printUsage appends its text to the output.
   */
  function ParseEffect(index: map<string, string>, args: map<string, Argument>, keys: seq<string>,
                       messages: seq<string>, tokens: seq<string>, floatCheck: FloatCheck,
                       app: string, version: Versions.Version, copyright: string, description: string,
                       printed: bool, out: seq<string>): ParseOutcome
    requires Parsable(index, args, keys, messages, tokens, floatCheck)
  {
    var p := Parsed(index, args, keys, messages, tokens, floatCheck);
    if p.1 == [] && !p.0["h"].isSet then ParseOutcome(true, p.0, p.1, printed, out)
    else
      PrintableShape(args, p.0, keys);
      ParseOutcome(false, p.0, p.1, true, out + Report(app, version, copyright, description, printed, p.1, p.0, keys))
  }

  /**
   * parse keeps the registry and the help switch, changes only what is
   * stored in the options, succeeds exactly when no message was reported and
   * --help was not given, and only appends to the output: the usage text,
   * which it can lay out, exactly when it fails.
   */
  lemma ParseEffectSpec(index: map<string, string>, args: map<string, Argument>, keys: seq<string>,
                        messages: seq<string>, tokens: seq<string>, floatCheck: FloatCheck,
                        app: string, version: Versions.Version, copyright: string, description: string,
                        printed: bool, out: seq<string>)
    requires Parsable(index, args, keys, messages, tokens, floatCheck)
    ensures var r := ParseEffect(index, args, keys, messages, tokens, floatCheck, app, version, copyright,
                                 description, printed, out);
            Registered(r.args, index, keys) && HasHelp(r.args) && SameShape(args, r.args)
            && (r.ok <==> r.messages == [] && !r.args["h"].isSet)
            && r.printed == (printed || !r.ok)
            && (r.ok ==> r.out == out)
            && (!r.ok ==> Printable(r.args, keys)
                          && r.out == out + Report(app, version, copyright, description, printed, r.messages, r.args, keys))
  {
    var p := Parsed(index, args, keys, messages, tokens, floatCheck);
    ShapeKeepsIndex(args, p.0, index, keys);
    if !(p.1 == [] && !p.0["h"].isSet) {
      PrintableShape(args, p.0, keys);
    }
  }

  /** The registry invariants survive a change of what is stored in the arguments. */
  lemma ShapeKeepsIndex(a: map<string, Argument>, b: map<string, Argument>, index: map<string, string>, keys: seq<string>)
    requires SameShape(a, b) && Indexed(a, index) && Listed(a, keys)
    ensures Indexed(b, index) && Listed(b, keys)
  {
    forall k | k in b
      ensures b[k].shortName == k && b[k].longName in index && index[b[k].longName] == k
    {
      assert SameDeclaration(a[k], b[k]);
    }
    forall l | l in index
      ensures index[l] in b && b[index[l]].longName == l
    {
      assert SameDeclaration(a[index[l]], b[index[l]]);
    }
  }

  /** The arguments object: the declared options and what parse made of a command line. */
  class Arguments {
    var application: string
    var version: Versions.Version
    var copyright: string
    var description: string
    var keys: seq<string>
    var arguments: map<string, Argument>
    var longToShortName: map<string, string>
    var messages: seq<string>
    var headerPrinted: bool
    /** The lines written to standard output. */
    var out: seq<string>

    /** The three containers describe the same options. */
    ghost predicate Registry()
      reads this
    {
      Registered(arguments, longToShortName, keys)
    }

    /** A registry that has the help switch "h" the constructor defines. */
    ghost predicate Valid()
      reads this
    {
      Registry() && HasHelp(arguments)
    }

    /** The constructor: version 1.0.0 and the switch --help / -h. */
    constructor()
      ensures Valid()
      ensures keys == ["h"] && longToShortName == map["help" := "h"]
      ensures arguments == map["h" := SwitchArgument("help", "h").(description := "Show this message")]
      ensures application == "" && version == Versions.Version(1, 0, 0) && copyright == "" && description == ""
      ensures messages == [] && !headerPrinted && out == []
    {
      application := "";
      version := Versions.Version(1, 0, 0);
      copyright := "";
      description := "";
      keys := [];
      arguments := map[];
      longToShortName := map[];
      messages := [];
      headerPrinted := false;
      out := [];
      new;
      DefineHelp();
    }

    /** The constructor's body: the switch --help / -h, as defineSwitch and addDescription leave it. */
    method DefineHelp()
      requires arguments == map[] && longToShortName == map[] && keys == []
      modifies this`arguments, this`longToShortName, this`keys
      ensures Valid()
      ensures keys == ["h"] && longToShortName == map["help" := "h"]
      ensures arguments == map["h" := SwitchArgument("help", "h").(description := "Show this message")]
    {
      arguments := map["h" := SwitchArgument("help", "h").(description := "Show this message")];
      longToShortName := map["help" := "h"];
      keys := ["h"];
    }

    method SetVersion(v: Versions.Version)
      modifies this`version
      ensures version == v
    {
      version := v;
    }

    method SetCopyright(text: string)
      modifies this`copyright
      ensures copyright == text
    {
      copyright := text;
    }

    method SetDescription(text: string)
      modifies this`description
      ensures description == text
    {
      description := text;
    }

    /**
     * defineValue: a new option under both names, appended to the key
     * list; a short name or long name already taken fails (the short name
     * is checked first) and changes nothing.
     */
    method DefineValue(longName: string, shortName: string, kind: ArgumentType, defaultValue: string, optional: bool)
      returns (r: Outcome)
      requires Registry()
      modifies this`arguments, this`longToShortName, this`keys
      ensures Registry() && (old(Valid()) ==> Valid())
      ensures r.Fail? <==> shortName in old(arguments) || longName in old(longToShortName)
      ensures shortName in old(arguments) ==>
                r == Fail(InvalidArgument("Argument with shortname '" + shortName + "' already defined."))
      ensures shortName !in old(arguments) && longName in old(longToShortName) ==>
                r == Fail(InvalidArgument("Argument with longname '" + longName + "' already defined."))
      ensures r.Fail? ==> arguments == old(arguments) && longToShortName == old(longToShortName) && keys == old(keys)
      ensures r.Pass? ==>
                arguments == old(arguments)[shortName := NewArgument(longName, shortName, kind, defaultValue, optional, false)]
                && longToShortName == old(longToShortName)[longName := shortName]
                && keys == old(keys) + [shortName]
    {
      r := Define(NewArgument(longName, shortName, kind, defaultValue, optional, false));
    }

    /** defineSwitch: as defineValue, for an optional BOOL switch defaulting to "false". */
    method DefineSwitch(longName: string, shortName: string) returns (r: Outcome)
      requires Registry()
      modifies this`arguments, this`longToShortName, this`keys
      ensures Registry() && (old(Valid()) ==> Valid())
      ensures r.Fail? <==> shortName in old(arguments) || longName in old(longToShortName)
      ensures shortName in old(arguments) ==>
                r == Fail(InvalidArgument("Argument with shortname '" + shortName + "' already defined."))
      ensures shortName !in old(arguments) && longName in old(longToShortName) ==>
                r == Fail(InvalidArgument("Argument with longname '" + longName + "' already defined."))
      ensures r.Fail? ==> arguments == old(arguments) && longToShortName == old(longToShortName) && keys == old(keys)
      ensures r.Pass? ==>
                arguments == old(arguments)[shortName := SwitchArgument(longName, shortName)]
                && longToShortName == old(longToShortName)[longName := shortName]
                && keys == old(keys) + [shortName]
    {
      r := Define(SwitchArgument(longName, shortName));
    }

    /** The body the two define methods share. */
    method Define(a: Argument) returns (r: Outcome)
      requires Registry() && a.value == "" && !a.isSet
      requires a.isSwitch ==> a.kind == BOOL && a.optional && a.defaultValue == "false"
      modifies this`arguments, this`longToShortName, this`keys
      ensures Registry() && (old(Valid()) ==> Valid())
      ensures r.Fail? <==> a.shortName in old(arguments) || a.longName in old(longToShortName)
      ensures a.shortName in old(arguments) ==>
                r == Fail(InvalidArgument("Argument with shortname '" + a.shortName + "' already defined."))
      ensures a.shortName !in old(arguments) && a.longName in old(longToShortName) ==>
                r == Fail(InvalidArgument("Argument with longname '" + a.longName + "' already defined."))
      ensures r.Fail? ==> arguments == old(arguments) && longToShortName == old(longToShortName) && keys == old(keys)
      ensures r.Pass? ==>
                arguments == old(arguments)[a.shortName := a]
                && longToShortName == old(longToShortName)[a.longName := a.shortName]
                && keys == old(keys) + [a.shortName]
    {
      if a.shortName in arguments {
        return Fail(InvalidArgument("Argument with shortname '" + a.shortName + "' already defined."));
      }
      if a.longName in longToShortName {
        return Fail(InvalidArgument("Argument with longname '" + a.longName + "' already defined."));
      }
      DefineKeepsRegistry(arguments, longToShortName, keys, a);
      arguments, longToShortName, keys :=
        arguments[a.shortName := a], longToShortName[a.longName := a.shortName], keys + [a.shortName];
      r := Pass;
    }

    /** addDescription: the description of the option a short or long name selects. */
    method AddDescription(key: string, text: string) returns (r: Outcome)
      requires Registry()
      modifies this`arguments
      ensures Registry() && (old(Valid()) ==> Valid())
      ensures r.Pass? <==> key in old(arguments) || key in longToShortName
      ensures r.Fail? ==> r.error == InvalidArgument("Undefined argument '" + key + "'") && arguments == old(arguments)
      ensures r.Pass? ==>
                var k := if key in old(arguments) then key else longToShortName[key];
                k in old(arguments) && arguments == old(arguments)[k := old(arguments)[k].(description := text)]
    {
      match CheckKey(arguments, longToShortName, key)
      case Err(e) =>
        r := Fail(e);
      case Ok(k) =>
        DescriptionKeepsRegistry(arguments, longToShortName, keys, k, text);
        arguments := arguments[k := arguments[k].(description := text)];
        r := Pass;
    }

    /**
     * getValue without the conversion: the option a short or long name
     * selects, or "Undefined argument".
     */
    function Lookup(key: string): (r: Result<Argument>)
      reads this
      requires Registry()
      ensures r.Ok? <==> key in arguments || key in longToShortName
      ensures key in arguments ==> r == Ok(arguments[key])
      ensures r.Ok? ==> r.value in arguments.Values && (r.value.shortName == key || r.value.longName == key)
      ensures r.Err? ==> r.error == InvalidArgument("Undefined argument '" + key + "'")
    {
      var k :- CheckKey(arguments, longToShortName, key);
      Ok(arguments[k])
    }

    /**
     * parse, with argv[0] reduced to its file name `app` and argv[1..] as
     * `tokens`: the token loop, "Bad argument format." for a value left
     * open, check() on every option in key order, and then, when there are
     * messages or --help was given, the usage text and false.
     */
    method Parse(app: string, tokens: seq<string>, floatCheck: FloatCheck) returns (ok: bool)
      requires Valid() && Parsable(longToShortName, arguments, keys, messages, tokens, floatCheck)
      modifies this`application, this`arguments, this`messages, this`out, this`headerPrinted
      ensures Valid()
      ensures application == app
      ensures ParseOutcome(ok, arguments, messages, headerPrinted, out)
              == old(ParseEffect(longToShortName, arguments, keys, messages, tokens, floatCheck,
                                 app, version, copyright, description, headerPrinted, out))
    {
      var parsedArgs, parsedMessages, printed, written;
      ok, parsedArgs, parsedMessages, printed, written :=
        ParseReport(longToShortName, arguments, keys, messages, tokens, floatCheck,
                    app, version, copyright, description, headerPrinted, out);
      Store(app, parsedArgs, parsedMessages, printed, written);
    }

    /** The fields parse leaves behind, written at once. */
    method Store(app: string, parsedArgs: map<string, Argument>, parsedMessages: seq<string>, printed: bool,
                 written: seq<string>)
      requires Registered(parsedArgs, longToShortName, keys) && HasHelp(parsedArgs)
      modifies this`application, this`arguments, this`messages, this`out, this`headerPrinted
      ensures Valid()
      ensures application == app && arguments == parsedArgs && messages == parsedMessages
      ensures headerPrinted == printed && out == written
    {
      application, arguments, messages, headerPrinted, out := app, parsedArgs, parsedMessages, printed, written;
    }

    /**
     * parse on values: the options and messages it leaves, its verdict,
     * and what printUsage adds to the output when the verdict is false.
     */
    static method ParseReport(index: map<string, string>, args: map<string, Argument>, keys: seq<string>,
                              messages: seq<string>, tokens: seq<string>, floatCheck: FloatCheck,
                              app: string, version: Versions.Version, copyright: string, description: string,
                              printed: bool, out: seq<string>)
      returns (ok: bool, parsedArgs: map<string, Argument>, parsedMessages: seq<string>, nowPrinted: bool,
               written: seq<string>)
      requires Parsable(index, args, keys, messages, tokens, floatCheck)
      ensures Registered(parsedArgs, index, keys) && HasHelp(parsedArgs)
      ensures ParseOutcome(ok, parsedArgs, parsedMessages, nowPrinted, written)
              == ParseEffect(index, args, keys, messages, tokens, floatCheck,
                             app, version, copyright, description, printed, out)
    {
      parsedArgs, parsedMessages, ok := ParseTokens(index, args, keys, messages, tokens, floatCheck);
      written, nowPrinted := out, printed;
      if !ok {
        PrintableShape(args, parsedArgs, keys);
        var lines := ReportText(app, version, copyright, description, printed, parsedMessages, parsedArgs, keys);
        written, nowPrinted := out + lines, true;
      }
    }

    /** The lines printUsage writes, the header included unless `printed`. */
    static method ReportText(application: string, version: Versions.Version, copyright: string, description: string,
                             printed: bool, messages: seq<string>, arguments: map<string, Argument>,
                             keys: seq<string>)
      returns (lines: seq<string>)
      requires Printable(arguments, keys)
      ensures lines == Report(application, version, copyright, description, printed, messages, arguments, keys)
    {
      lines := [];
      if !printed {
        lines := HeaderText(application, version, copyright, description);
      }
      var usage := UsageText(application, messages, arguments, keys);
      lines := lines + usage;
    }

    /** The two loops of parse and its verdict, on the options and messages they update. */
    static method ParseTokens(index: map<string, string>, args: map<string, Argument>, keys: seq<string>,
                              messages: seq<string>, tokens: seq<string>, floatCheck: FloatCheck)
      returns (parsedArgs: map<string, Argument>, parsedMessages: seq<string>, ok: bool)
      requires Registered(args, index, keys) && HasHelp(args)
      requires Run(index, Scanner(ExpectingKey, "", "", args, messages), tokens).Some?
      ensures (parsedArgs, parsedMessages) == Parsed(index, args, keys, messages, tokens, floatCheck)
      ensures Registered(parsedArgs, index, keys) && HasHelp(parsedArgs)
      ensures ok <==> parsedMessages == [] && !parsedArgs["h"].isSet
    {
      ghost var sc := Run(index, Scanner(ExpectingKey, "", "", args, messages), tokens).value;
      var scanned, reported, pending := ScanTokens(index, args, messages, tokens);
      if pending {
        reported := reported + ["Bad argument format."];
      }
      assert reported == sc.messages + (if sc.status != ExpectingKey then ["Bad argument format."] else []);
      MapOrderListed(scanned, keys);
      var failed;
      parsedArgs, failed := CheckArguments(scanned, MapOrder(keys), floatCheck);
      parsedMessages := reported + failed;
      assert (parsedArgs, failed) == CheckAll(sc.args, MapOrder(keys), floatCheck);
      assert (parsedArgs, parsedMessages) == Parsed(index, args, keys, messages, tokens, floatCheck);
      ShapeKeepsIndex(args, parsedArgs, index, keys);
      var help := CheckKey(parsedArgs, index, "h");
      SwitchValue(parsedArgs, "h");
      var helpGiven := ValueBool(parsedArgs[help.value]).value;
      ok := !(parsedMessages != [] || helpGiven);
    }

    /** The token loop of parse, on the options and messages it updates. */
    static method ScanTokens(index: map<string, string>, args: map<string, Argument>, messages: seq<string>,
                             tokens: seq<string>)
      returns (scanned: map<string, Argument>, reported: seq<string>, pending: bool)
      requires Indexed(args, index) && SwitchesBoolean(args)
      requires Run(index, Scanner(ExpectingKey, "", "", args, messages), tokens).Some?
      ensures var sc := Run(index, Scanner(ExpectingKey, "", "", args, messages), tokens).value;
              scanned == sc.args && reported == sc.messages && pending == (sc.status != ExpectingKey)
    {
      ghost var start := Scanner(ExpectingKey, "", "", args, messages);
      var status := ExpectingKey;
      var key: string := "";
      var value: string := "";
      scanned, reported := args, messages;
      for i := 0 to |tokens|
        invariant Run(index, start, tokens[..i]) == Some(Scanner(status, key, value, scanned, reported))
      {
        RunNext(index, start, tokens, i);
        status, key, value, scanned, reported := ScanToken(index, status, key, value, scanned, reported, tokens[i]);
      }
      assert tokens[..|tokens|] == tokens;
      pending := status != ExpectingKey;
    }

    /** One iteration of the token loop: the state after the token `arg`. */
    static method ScanToken(index: map<string, string>, status: Status, key: string, value: string,
                            args: map<string, Argument>, messages: seq<string>, arg: string)
      returns (nextStatus: Status, nextKey: string, nextValue: string,
               nextArgs: map<string, Argument>, nextMessages: seq<string>)
      requires Scanning(index, Scanner(status, key, value, args, messages))
      requires StepDefined(Scanner(status, key, value, args, messages), arg)
      ensures Scanner(nextStatus, nextKey, nextValue, nextArgs, nextMessages)
                == Step(index, Scanner(status, key, value, args, messages), arg)
    {
      nextStatus, nextKey, nextValue, nextArgs, nextMessages := status, key, value, args, messages;
      var ready := false;
      if status == ExpectingKey {
        nextKey := arg;
        if Text.Find(arg, "=").Some? {
          var parts := Text.Split(arg, "=");
          nextKey := parts[0];
          nextValue := parts[1];
          if Format.CharAt(nextValue, 0) == '"' {
            nextStatus := CollectingValue;
          } else {
            ready := true;
          }
        }
        nextKey := StripDashes(nextKey);
        match CheckKey(args, index, nextKey)
        case Ok(k) =>
          nextKey := k;
          if args[k].isSwitch {
            nextValue := "true";
            ready := true;
          }
          if nextStatus == ExpectingKey && !ready {
            nextStatus := ExpectingValue;
          }
        case Err(e) =>
          nextMessages := messages + [e.what];
          nextStatus := ExpectingKey;
          ready := false;
      } else if status == ExpectingValue {
        nextValue := arg;
        if Format.CharAt(nextValue, 0) == '"' {
          nextStatus := CollectingValue;
        } else {
          ready := true;
        }
      } else {
        nextValue := " " + arg;
        assert |nextValue| == 1 ==> nextValue[|nextValue| - 1..] == " ";
        if nextValue[|nextValue| - 1..] == "\"" && nextValue[|nextValue| - 2..] != "\\" {
          ready := true;
        }
      }
      if ready {
        nextArgs := args[nextKey := SetValue(args[nextKey], nextValue)];
        nextStatus := ExpectingKey;
      }
    }

    /** The check loop of parse: check() on every option, in the order the map visits the keys. */
    static method CheckArguments(args: map<string, Argument>, order: seq<string>, floatCheck: FloatCheck)
      returns (checked: map<string, Argument>, failed: seq<string>)
      requires forall i | 0 <= i < |order| :: order[i] in args
      ensures (checked, failed) == CheckAll(args, order, floatCheck)
    {
      checked, failed := args, [];
      for j := 0 to |order|
        invariant (checked, failed) == CheckAll(args, order[..j], floatCheck)
      {
        CheckAllSnoc(args, order, j, floatCheck);
        var k := order[j];
        var verdict := Check(checked[k], floatCheck);
        if verdict.Some? {
          checked := checked[k := checked[k].(message := verdict.value)];
          failed := failed + [verdict.value];
        }
      }
      assert order[..|order|] == order;
    }

    /** Writes lines to standard output, one after the other. */
    method Emit(lines: seq<string>)
      modifies this`out
      ensures out == old(out) + lines
    {
      for i := 0 to |lines|
        invariant out == old(out) + lines[..i]
      {
        assert lines[..i + 1] == lines[..i] + [lines[i]];
        out := out + [lines[i]];
      }
      assert lines[..|lines|] == lines;
    }

    /** printHeader: the header, once. */
    method PrintHeader()
      modifies this`out, this`headerPrinted
      ensures headerPrinted
      ensures out == old(out) + (if old(headerPrinted) then [] else HeaderLines(application, version, copyright, description))
    {
      if !headerPrinted {
        var lines := HeaderText(application, version, copyright, description);
        Emit(lines);
        headerPrinted := true;
      }
    }

    /** The lines printHeader writes. */
    static method HeaderText(application: string, version: Versions.Version, copyright: string, description: string)
      returns (lines: seq<string>)
      ensures lines == HeaderLines(application, version, copyright, description)
    {
      lines := [application + " " + Versions.ToString(version)];
      if copyright != [] {
        lines := lines + [copyright];
      }
      lines := lines + [""];
      if description != [] {
        var block := Text.ToBlock(description, WIDTH, Text.Left);
        lines := lines + block + [""];
      }
    }

    /** printUsage: the header, the errors, the usage line and a block per option. */
    method PrintUsage()
      requires Printable(arguments, keys)
      modifies this`out, this`headerPrinted
      ensures headerPrinted
      ensures out == old(out) + Report(application, version, copyright, description, old(headerPrinted),
                                       messages, arguments, keys)
    {
      ghost var before := out;
      PrintHeader();
      ghost var header := out[|before|..];
      assert out == before + header;
      var lines := UsageText(application, messages, arguments, keys);
      Emit(lines);
      AppendAssociates(before, header, lines);
    }

    /** The lines printUsage writes after the header. */
    static method UsageText(application: string, messages: seq<string>, arguments: map<string, Argument>,
                            keys: seq<string>) returns (lines: seq<string>)
      requires Printable(arguments, keys)
      ensures lines == UsageLines(application, messages, arguments, keys)
    {
      lines := [];
      if messages != [] {
        lines := ["Error" + (if |messages| > 1 then "s" else "") + ":"] + messages + [""];
      }
      lines := lines + ["Usage:"];
      var usage := UsageLine(application, arguments, keys);
      var options := OptionsText(arguments, keys);
      lines := lines + usage + options;
    }

    /** The usage line of printUsage, wrapped at column 80. */
    static method UsageLine(application: string, arguments: map<string, Argument>, keys: seq<string>)
      returns (lines: seq<string>)
      requires forall i | 0 <= i < |keys| :: keys[i] in arguments
      ensures var w := Wrap(application, arguments, keys);
              lines == w.lines + [w.current, ""]
    {
      lines := [];
      var line := application;
      var indent := Text.Spaces(|application|);
      var n: nat := |indent|;
      for i := 0 to |keys|
        invariant Wrap(application, arguments, keys[..i]) == UsageRow(lines, line, n)
      {
        assert keys[..i + 1][..i] == keys[..i];
        var a := ToString(arguments[keys[i]]);
        if n + |a| + 1 > WIDTH {
          lines := lines + [line];
          line := indent;
          n := n + |indent|;
        }
        line := line + " " + a;
        n := n + |a| + 1;
      }
      assert keys[..|keys|] == keys;
      lines := lines + [line, ""];
    }

    /** The column of the descriptions: 8 past the longest long name plus short name. */
    static method Column(arguments: map<string, Argument>, keys: seq<string>) returns (max: nat)
      requires forall i | 0 <= i < |keys| :: keys[i] in arguments
      ensures max == MaxNames(arguments, keys) + 8
    {
      max := 0;
      for i := 0 to |keys|
        invariant max == MaxNames(arguments, keys[..i])
      {
        assert keys[..i + 1][..i] == keys[..i];
        var arg := arguments[keys[i]];
        var l := |arg.longName| + |arg.shortName|;
        if l > max {
          max := l;
        }
      }
      assert keys[..|keys|] == keys;
      max := max + 8;
    }

    /** The option blocks of printUsage, the descriptions in a column 8 past the longest names. */
    static method OptionsText(arguments: map<string, Argument>, keys: seq<string>) returns (lines: seq<string>)
      requires Printable(arguments, keys)
      ensures lines == OptionBlock(arguments, keys, MaxNames(arguments, keys) + 8)
    {
      var max := Column(arguments, keys);
      lines := [];
      for i := 0 to |keys|
        invariant AllDescribable(arguments, keys[..i], max)
        invariant lines == OptionBlock(arguments, keys[..i], max)
      {
        assert keys[..i + 1][..i] == keys[..i];
        DescribablePrefix(arguments, keys, max, i + 1);
        var option := OptionText(arguments[keys[i]], max);
        lines := lines + option;
      }
      assert keys[..|keys|] == keys;
    }

    /** The lines of one option. */
    static method OptionText(arg: Argument, max: nat) returns (result: seq<string>)
      requires Describable(arg, max)
      ensures result == OptionLines(arg, max)
    {
      var lines := Text.ToBlock(arg.description, WIDTH - max, Text.Left);
      Text.BlockLines(arg.description, WIDTH - max, Text.Left);
      var indent := Text.Spaces(max);
      var argStr := "--" + arg.longName + " | -" + arg.shortName + ": ";
      argStr := argStr + Text.Spaces(max - |argStr|);
      var rest := [];
      for i := 1 to |lines|
        invariant rest == Indented(max, lines[1..i])
      {
        assert Indented(max, lines[1..i + 1]) == Indented(max, lines[1..i]) + [indent + lines[i]];
        rest := rest + [indent + lines[i]];
      }
      assert lines[1..|lines|] == lines[1..];
      result := [argStr + lines[0]] + rest;
      if arg.optional && !arg.isSwitch {
        var line := indent + "optional";
        if arg.defaultValue != [] {
          line := line + " - default: " + arg.defaultValue;
        }
        result := result + [line];
      }
    }
  }

  /** A new option under two unused names keeps the registry invariants and the help switch. */
  lemma DefineKeepsRegistry(args: map<string, Argument>, index: map<string, string>, keys: seq<string>, a: Argument)
    requires Registered(args, index, keys) && a.shortName !in args && a.longName !in index
    requires a.value == "" && !a.isSet && (a.isSwitch ==> a.kind == BOOL && a.optional && a.defaultValue == "false")
    ensures Registered(args[a.shortName := a], index[a.longName := a.shortName], keys + [a.shortName])
    ensures HasHelp(args) ==> HasHelp(args[a.shortName := a])
  {
    var k := keys + [a.shortName];
    assert k[..|keys|] == keys;
  }

  /** Changing a description keeps the registry invariants. */
  lemma DescriptionKeepsRegistry(args: map<string, Argument>, index: map<string, string>, keys: seq<string>,
                                 k: string, text: string)
    requires Indexed(args, index) && Listed(args, keys) && SwitchesBoolean(args) && k in args
    ensures var b := args[k := args[k].(description := text)];
            Indexed(b, index) && Listed(b, keys) && SwitchesBoolean(b)
  {
  }

  lemma DescribablePrefix(args: map<string, Argument>, keys: seq<string>, column: nat, n: nat)
    requires Printable(args, keys) && column == MaxNames(args, keys) + 8 && n <= |keys|
    ensures AllDescribable(args, keys[..n], column)
  {
    forall i | 0 <= i < n
      ensures keys[..n][i] in args && Describable(args[keys[..n][i]], column)
    {
      assert keys[..n][i] == keys[i];
    }
  }
}
