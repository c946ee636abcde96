/** The validator (`validate`): every rule is checked, none short-circuits
    another, and the form is valid exactly when no field has an error. */
module Validation {

  import opened Wrappers
  import opened Text

  /** The JavaScript number conversions the form uses, taken as given:
      `parseInt` and `parseFloat` on the raw text of a field (`None` is
      `NaN`), and `toString` / `String` on the numbers a record stores. */
  datatype NumberSyntax = NumberSyntax(
    parseInt: string -> Option<int>,
    parseFloat: string -> Option<real>,
    intToString: Option<int> -> string,
    floatToString: Option<real> -> string)

  /** The keys of the error map: `name`, `age` and `mark0` .. `mark4`. */
  datatype FieldKey = NameKey | AgeKey | MarkKey(index: nat)

  const NameMessage: string := "Name is required"
  const AgeMessage: string := "Valid age is required"
  const MarkMessage: string := "Marks must be between 0 and 100"

  function Message(k: FieldKey): string
  {
    match k
    case NameKey => NameMessage
    case AgeKey => AgeMessage
    case MarkKey(_) => MarkMessage
  }

  /** `!age || parseInt(age) <= 0`; a `NaN` parse compares false and passes. */
  predicate BadAge(age: string, parsed: Option<int>)
  {
    age == "" || (parsed.Some? && parsed.value <= 0)
  }

  /** `isNaN(num) || num < 0 || num > 100`. */
  predicate BadMark(num: Option<real>)
  {
    num.None? || num.value < 0.0 || num.value > 100.0
  }

  /** The entries for the name and the age, made before the marks loop. */
  function FieldErrors(lib: NumberSyntax, name: string, age: string): (r: map<FieldKey, string>)
    ensures r.Keys <= {NameKey, AgeKey}
    ensures NameKey in r <==> Trim(name) == ""
    ensures AgeKey in r <==> BadAge(age, lib.parseInt(age))
    ensures forall k :: k in r ==> r[k] == Message(k)
  {
    var err := if Trim(name) == "" then map[NameKey := NameMessage] else map[];
    if BadAge(age, lib.parseInt(age)) then err[AgeKey := AgeMessage] else err
  }

  /** The entries the `forEach` over the marks adds, one per failing mark. */
  function MarkErrors(parseFloat: string -> Option<real>, marks: seq<string>): (r: map<FieldKey, string>)
    ensures NameKey !in r && AgeKey !in r
    decreases |marks|
  {
    if marks == [] then map[]
    else
      var i := |marks| - 1;
      var r := MarkErrors(parseFloat, marks[..i]);
      if BadMark(parseFloat(marks[i])) then r[MarkKey(i) := MarkMessage] else r
  }

  /** The marks loop reports mark `i` exactly when it fails, and nothing else. */
  lemma {:induction false} MarkErrorsByIndex(parseFloat: string -> Option<real>, marks: seq<string>)
    ensures var r := MarkErrors(parseFloat, marks);
      && (forall k :: k in r ==> k.MarkKey? && k.index < |marks| && r[k] == MarkMessage)
      && (forall i :: 0 <= i < |marks| ==> (MarkKey(i) in r <==> BadMark(parseFloat(marks[i]))))
    decreases |marks|
  {
    if marks != [] {
      var n := |marks| - 1;
      MarkErrorsByIndex(parseFloat, marks[..n]);
      assert forall i :: 0 <= i < n ==> marks[..n][i] == marks[i];
    }
  }

  /** The error map `validate` builds from the draft. */
  function Errors(lib: NumberSyntax, name: string, age: string, marks: seq<string>): (r: map<FieldKey, string>)
    ensures NameKey in r <==> Trim(name) == ""
    ensures AgeKey in r <==> BadAge(age, lib.parseInt(age))
  {
    FieldErrors(lib, name, age) + MarkErrors(lib.parseFloat, marks)
  }

  /** Each rule stands on its own: the name has an error exactly when it is
      all white space, the age exactly when it is empty or parses to a
      number at most 0, each mark exactly when it does not parse or lies
      outside [0, 100]; there are no other keys, and each key carries its
      field's message. */
  lemma ErrorsByField(lib: NumberSyntax, name: string, age: string, marks: seq<string>)
    ensures var r := Errors(lib, name, age, marks);
      && (NameKey in r <==> AllWhitespace(name))
      && (AgeKey in r <==> age == "" || (lib.parseInt(age).Some? && lib.parseInt(age).value <= 0))
      && (forall i :: 0 <= i < |marks| ==>
            (MarkKey(i) in r <==> var num := lib.parseFloat(marks[i]); num.None? || num.value < 0.0 || num.value > 100.0))
      && (forall k :: k in r ==> (k.MarkKey? ==> k.index < |marks|) && r[k] == Message(k))
  {
    TrimEmptyIff(name);
    MarkErrorsByIndex(lib.parseFloat, marks);
  }

  /** The form passes exactly when the name is not blank, the age passes
      and every mark passes. */
  lemma NoErrorsIff(lib: NumberSyntax, name: string, age: string, marks: seq<string>)
    ensures Errors(lib, name, age, marks) == map[] <==>
      && !AllWhitespace(name)
      && !BadAge(age, lib.parseInt(age))
      && forall i :: 0 <= i < |marks| ==> !BadMark(lib.parseFloat(marks[i]))
  {
    var r := Errors(lib, name, age, marks);
    ErrorsByField(lib, name, age, marks);
    if !AllWhitespace(name) && !BadAge(age, lib.parseInt(age)) && forall i :: 0 <= i < |marks| ==> !BadMark(lib.parseFloat(marks[i])) {
      assert r.Keys == {};
    }
  }

  /** An empty name and an out-of-range mark are both reported by one submit. */
  lemma ErrorsCoexist(lib: NumberSyntax, name: string, age: string, marks: seq<string>, i: nat)
    requires name == ""
    requires i < |marks| && BadMark(lib.parseFloat(marks[i]))
    ensures var r := Errors(lib, name, age, marks);
      NameKey in r && r[NameKey] == NameMessage && MarkKey(i) in r && r[MarkKey(i)] == MarkMessage
  {
    ErrorsByField(lib, name, age, marks);
  }

  /** One more turn of the marks loop, on top of the name and age entries. */
  lemma MarkErrorsStep(parseFloat: string -> Option<real>, marks: seq<string>, i: nat, fields: map<FieldKey, string>)
    requires i < |marks|
    ensures var found := MarkErrors(parseFloat, marks[..i]);
      if BadMark(parseFloat(marks[i])) then
        && MarkErrors(parseFloat, marks[..i + 1]) == found[MarkKey(i) := MarkMessage]
        && fields + found[MarkKey(i) := MarkMessage] == (fields + found)[MarkKey(i) := MarkMessage]
      else MarkErrors(parseFloat, marks[..i + 1]) == found
  {
    assert marks[..i + 1][..i] == marks[..i];
  }

  lemma NoKeys<K, V>(m: map<K, V>)
    ensures |m| == 0 <==> m == map[]
  {
    if |m| == 0 {
      assert m.Keys == {};
    }
  }

  /** The `forEach` over the marks: adds to `err` an entry for every mark
      that fails, in index order. */
  method AddMarkErrors(parseFloat: string -> Option<real>, marks: seq<string>, fields: map<FieldKey, string>)
    returns (err: map<FieldKey, string>)
    ensures err == fields + MarkErrors(parseFloat, marks)
  {
    err := fields;
    ghost var found: map<FieldKey, string> := map[];
    var i := 0;
    while i < |marks|
      invariant 0 <= i <= |marks|
      invariant found == MarkErrors(parseFloat, marks[..i])
      invariant err == fields + found
    {
      var num := parseFloat(marks[i]);
      MarkErrorsStep(parseFloat, marks, i, fields);
      if num.None? || num.value < 0.0 || num.value > 100.0 {
        err := err[MarkKey(i) := MarkMessage];
        found := found[MarkKey(i) := MarkMessage];
      }
      i := i + 1;
    }
    assert marks[..i] == marks;
  }

  /** `validate`: builds the error map step by step and reports whether it is empty. */
  method Validate(lib: NumberSyntax, name: string, age: string, marks: seq<string>)
    returns (err: map<FieldKey, string>, ok: bool)
    ensures err == Errors(lib, name, age, marks)
    ensures ok <==> err == map[]
  {
    err := map[];
    if Trim(name) == "" {
      err := err[NameKey := NameMessage];
    }
    if age == "" || (var a := lib.parseInt(age); a.Some? && a.value <= 0) {
      err := err[AgeKey := AgeMessage];
    }
    assert err == FieldErrors(lib, name, age);
    err := AddMarkErrors(lib.parseFloat, marks, err);
    NoKeys(err);
    ok := |err| == 0;
  }
}
