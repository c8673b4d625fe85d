/** Entity names: the association config and the search for an instance in it. */
module Entity {
  import opened Bytes
  import opened Ipmi
  import opened Narrowing

  /** A member of a JSON object read with a default and an expected type. */
  datatype Field<+T> = Missing | Present(value: T) | WrongType

  datatype Reading = NotAnObject | Reading(instance: Field<Number>, name: Field<Text>)

  datatype Readings = NotAnArray | Array(readings: seq<Reading>)

  datatype Config = Malformed | Types(types: map<Text, Readings>)

  /** The names entity ids go by in the config. */
  function EntityType(id: byte): Option<Text> {
    if id == 0x03 then Some(Ascii("cpu"))
    else if id == 0x04 then Some(Ascii("storage_device"))
    else if id == 0x06 then Some(Ascii("system_management_module"))
    else if id == 0x07 then Some(Ascii("system_board"))
    else if id == 0x08 then Some(Ascii("memory_module"))
    else if id == 0x0B then Some(Ascii("add_in_card"))
    else if id == 0x0E then Some(Ascii("power_system_board"))
    else if id == 0x10 then Some(Ascii("system_internal_expansion_board"))
    else if id == 0x11 then Some(Ascii("other_system_board"))
    else if id == 0x17 then Some(Ascii("system_chassis"))
    else if id == 0x1D then Some(Ascii("fan"))
    else if id == 0x1E then Some(Ascii("cooling_unit"))
    else if id == 0x20 then Some(Ascii("memory_device"))
    else None
  }

  /** The instance a reading is for, as the uint8_t it is narrowed to; 0 if it does not say. */
  function InstanceOf(r: Reading): Execution<byte> {
    match r
    case NotAnObject => Ends(Foreign)
    case Reading(Missing, _) => Ends(Value(0))
    case Reading(WrongType, _) => Ends(Foreign)
    case Reading(Present(n), _) => AsOctet(n)
  }

  predicate IsFor(r: Reading, instance: byte) { InstanceOf(r) == Ends(Value(instance)) }

  /** A reading the search passes: it is for another instance. */
  predicate Passed(r: Reading, instance: byte) {
    match InstanceOf(r) case Ends(Value(i)) => i != instance case _ => false
  }

  predicate AllPassed(readings: seq<Reading>, instance: byte) {
    forall i :: 0 <= i < |readings| ==> Passed(readings[i], instance)
  }

  /** The position that ends the search. */
  function Decisive(readings: seq<Reading>, instance: byte): (n: nat)
    ensures n <= |readings| && AllPassed(readings[..n], instance)
    ensures n < |readings| ==> !Passed(readings[n], instance)
  {
    if readings == [] || !Passed(readings[0], instance) then 0
    else
      var n := Decisive(readings[1..], instance);
      assert readings[..n + 1] == [readings[0]] + readings[1..][..n];
      n + 1
  }

  lemma {:induction false} DecisiveIs(readings: seq<Reading>, instance: byte, n: nat)
    requires n <= |readings| && AllPassed(readings[..n], instance)
    requires n < |readings| ==> !Passed(readings[n], instance)
    ensures Decisive(readings, instance) == n
  {
    if n > 0 {
      assert Passed(readings[..n][0], instance);
      assert readings[1..][..n - 1] == readings[..n][1..];
      DecisiveIs(readings[1..], instance, n - 1);
    }
  }

  /** The name of an instance: empty if none is listed, an exception if the config is not as expected. */
  function NameIn(config: Config, typeName: Text, instance: byte): Execution<Text> {
    match config
    case Malformed => Ends(Foreign)
    case Types(types) =>
      if typeName !in types then Ends(Value([]))
      else match types[typeName]
        case NotAnArray => Ends(Foreign)
        case Array(readings) => NameAt(readings, Decisive(readings, instance))
  }

  function NameAt(readings: seq<Reading>, n: nat): Execution<Text> {
    if n >= |readings| then Ends(Value([]))
    else match InstanceOf(readings[n])
      case Meaningless => Meaningless
      case Ends(Value(_)) =>
        (match readings[n].name
         case Missing => Ends(Value([]))
         case Present(name) => Ends(Value(name))
         case WrongType => Ends(Foreign))
      case Ends(_) => Ends(Foreign)
  }

  /** readNameFromConfig. */
  method ReadNameFromConfig(typeName: Text, instance: byte, config: Config) returns (r: Execution<Text>)
    ensures r == NameIn(config, typeName, instance)
  {
    if config.Malformed? {
      return Ends(Foreign);
    }
    var readings := [];
    if typeName in config.types {
      if config.types[typeName].NotAnArray? {
        return Ends(Foreign);
      }
      readings := config.types[typeName].readings;
    }
    var name := [];
    for k := 0 to |readings|
      invariant name == [] && AllPassed(readings[..k], instance)
    {
      var j := readings[k];
      assert readings[..k + 1] == readings[..k] + [j];
      var instanceNum := InstanceOf(j);
      if instanceNum.Ends? && instanceNum.answer.Value? && instanceNum.answer.value != instance {
        continue;
      }
      DecisiveIs(readings, instance, k);
      if instanceNum.Meaningless? {
        return Meaningless;
      }
      if !instanceNum.answer.Value? || j.name.WrongType? {
        return Ends(Foreign);
      }
      if j.name.Present? {
        name := j.name.value;
      }
      return Ends(Value(name));
    }
    assert readings[..|readings|] == readings;
    DecisiveIs(readings, instance, |readings|);
    r := Ends(Value(name));
  }

  /** The instance number that is written in a reading; one that is missing counts as 0. */
  predicate Says(r: Reading, m: int) {
    r.Reading? &&
    match r.instance
    case Missing => m == 0
    case WrongType => false
    case Present(Integer(i)) => m == i
    case Present(Float(x)) => INT_MIN as real - 1.0 < x < INT_MAX as real + 1.0 && m == Truncated(x)
  }

  predicate SaysNoNumber(r: Reading) { r.NotAnObject? || r.instance.WrongType? }

  /** The readings before position i say other numbers, modulo 256. */
  ghost predicate OthersBefore(readings: seq<Reading>, instance: byte, i: nat)
    requires i <= |readings|
  {
    forall j :: 0 <= j < i ==> exists m :: Says(readings[j], m) && (m - instance) % 256 != 0
  }

  lemma SaysOctet(r: Reading, m: int, instance: byte)
    requires Says(r, m)
    ensures IsFor(r, instance) <==> (m - instance) % 256 == 0
    ensures Passed(r, instance) <==> (m - instance) % 256 != 0
  {
    var octet := InstanceOf(r).answer.value;
    assert (m - octet) % 256 == 0;
  }

  lemma OthersArePassed(readings: seq<Reading>, instance: byte, i: nat)
    requires i <= |readings| && OthersBefore(readings, instance, i)
    ensures AllPassed(readings[..i], instance)
  {
    forall j | 0 <= j < i ensures Passed(readings[..i][j], instance) {
      var m :| Says(readings[j], m) && (m - instance) % 256 != 0;
      SaysOctet(readings[j], m, instance);
    }
  }

  /** In a list of readings, the first one whose number is the instance modulo 256 names it. */
  lemma FirstMatchNames(types: map<Text, Readings>, typeName: Text, readings: seq<Reading>, instance: byte, i: nat,
                        m: int)
    requires typeName in types && types[typeName] == Array(readings)
    requires i < |readings| && OthersBefore(readings, instance, i)
    requires Says(readings[i], m) && (m - instance) % 256 == 0
    ensures NameIn(Types(types), typeName, instance) ==
            match readings[i].name
            case Present(name) => Ends(Value(name))
            case Missing => Ends(Value([]))
            case WrongType => Ends(Foreign)
  {
    OthersArePassed(readings, instance, i);
    SaysOctet(readings[i], m, instance);
    DecisiveIs(readings, instance, i);
  }

  /** Otherwise there is no name, or an exception when the config is not as expected. */
  lemma NoMatchNames(config: Config, typeName: Text, instance: byte)
    ensures config.Malformed? ==> NameIn(config, typeName, instance) == Ends(Foreign)
    ensures config.Types? && typeName !in config.types ==> NameIn(config, typeName, instance) == Ends(Value([]))
    ensures config.Types? && typeName in config.types && config.types[typeName].NotAnArray? ==>
              NameIn(config, typeName, instance) == Ends(Foreign)
    ensures config.Types? && typeName in config.types && config.types[typeName].Array? ==>
              var readings := config.types[typeName].readings;
              && (OthersBefore(readings, instance, |readings|) ==>
                    NameIn(config, typeName, instance) == Ends(Value([])))
              && (forall i :: 0 <= i < |readings| && OthersBefore(readings, instance, i)
                              && SaysNoNumber(readings[i]) ==>
                    NameIn(config, typeName, instance) == Ends(Foreign))
  {
    if config.Types? && typeName in config.types && config.types[typeName].Array? {
      var readings := config.types[typeName].readings;
      forall i | 0 <= i <= |readings| && OthersBefore(readings, instance, i)
                 && (i < |readings| ==> SaysNoNumber(readings[i]))
        ensures Decisive(readings, instance) == i
      {
        OthersArePassed(readings, instance, i);
        DecisiveIs(readings, instance, i);
      }
    }
  }

  /** The ids the program supports. */
  lemma SupportedIds(id: byte)
    ensures EntityType(id).Some? <==>
            id in {0x03, 0x04, 0x06, 0x07, 0x08, 0x0B, 0x0E, 0x10, 0x11, 0x17, 0x1D, 0x1E, 0x20}
  {
  }

  /** The lists they are looked up in. */
  lemma ModuleTypes()
    ensures EntityType(0x03) == Some(Ascii("cpu")) && EntityType(0x04) == Some(Ascii("storage_device"))
    ensures EntityType(0x08) == Some(Ascii("memory_module")) && EntityType(0x20) == Some(Ascii("memory_device"))
    ensures EntityType(0x1D) == Some(Ascii("fan")) && EntityType(0x1E) == Some(Ascii("cooling_unit"))
    ensures EntityType(0x06) == Some(Ascii("system_management_module"))
  {
  }

  lemma BoardTypes()
    ensures EntityType(0x07) == Some(Ascii("system_board")) && EntityType(0x0B) == Some(Ascii("add_in_card"))
    ensures EntityType(0x0E) == Some(Ascii("power_system_board"))
    ensures EntityType(0x10) == Some(Ascii("system_internal_expansion_board"))
    ensures EntityType(0x11) == Some(Ascii("other_system_board"))
    ensures EntityType(0x17) == Some(Ascii("system_chassis"))
  {
  }

  /** A reading whose instance is a number with a fraction part that is too large for an int. */
  predicate Oversized(r: Reading) {
    r.Reading? && r.instance.Present? && r.instance.value.Float? &&
    !(INT_MIN as real - 1.0 < r.instance.value.x < INT_MAX as real + 1.0)
  }

  /** The search reaches an oversized instance number. */
  predicate MeetsOversized(config: Config, typeName: Text, instance: byte) {
    && config.Types? && typeName in config.types && config.types[typeName].Array?
    && var readings := config.types[typeName].readings;
       exists i :: 0 <= i < |readings| && Oversized(readings[i]) && AllPassed(readings[..i], instance)
  }

  /** A search loses its meaning exactly when it gets to an oversized number before it finds its instance. */
  lemma MeaninglessExactly(config: Config, typeName: Text, instance: byte)
    ensures NameIn(config, typeName, instance).Meaningless? <==> MeetsOversized(config, typeName, instance)
  {
    if config.Types? && typeName in config.types && config.types[typeName].Array? {
      var readings := config.types[typeName].readings;
      var n := Decisive(readings, instance);
      assert NameAt(readings, n).Meaningless? <==> n < |readings| && Oversized(readings[n]);
      if MeetsOversized(config, typeName, instance) {
        var i :| 0 <= i < |readings| && Oversized(readings[i]) && AllPassed(readings[..i], instance);
        DecisiveIs(readings, instance, i);
      }
    }
  }
}
