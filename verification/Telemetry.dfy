/** A decoded telemetry message: a tree of named fields. */
module Telemetry {

  type UInt32 = n: int | 0 <= n < 0x1_0000_0000

  /** The ValueByType of a field: nothing at all, or one of the scalar kinds. */
  datatype Scalar = NoValue | StringValue(text: string) | Uint32Value(number: UInt32) | OtherValue

  datatype Field = Field(name: string, value: Scalar, fields: seq<Field>)

  /** The getters return the zero value when the field is of another kind. */
  function GetString(f: Field): string {
    if f.value.StringValue? then f.value.text else ""
  }

  function GetUint32(f: Field): UInt32 {
    if f.value.Uint32Value? then f.value.number else 0
  }

  /** What follows the last colon, or the whole name without one. */
  function StripModule(s: string): string {
    if s == "" || s[|s| - 1] == ':' then ""
    else StripModule(s[..|s| - 1]) + [s[|s| - 1]]
  }

  /** The stripped name has no colon, ends the full name, and is cut off right after a colon. */
  lemma {:induction false} StripModuleMeaning(s: string)
    ensures var r := StripModule(s);
            && ':' !in r
            && |r| <= |s| && s[|s| - |r|..] == r
            && (|r| < |s| ==> s[|s| - |r| - 1] == ':')
  {
    if s != "" && s[|s| - 1] != ':' {
      StripModuleMeaning(s[..|s| - 1]);
    }
  }

  /** What follows a colon and has none itself is what is left of the name. */
  lemma {:induction false} LastColon(prefix: string, rest: string)
    requires prefix == "" || prefix[|prefix| - 1] == ':'
    requires ':' !in rest
    ensures StripModule(prefix + rest) == rest
  {
    if rest == "" {
      assert prefix + rest == prefix;
    } else {
      assert (prefix + rest)[..|prefix + rest| - 1] == prefix + rest[..|rest| - 1];
      LastColon(prefix, rest[..|rest| - 1]);
    }
  }

  /** The full name is the bare name, or the bare name behind a module prefix. */
  predicate IsCalled(full: string, bare: string) {
    || full == bare
    || (|bare| < |full| && full[|full| - |bare|..] == bare && full[|full| - |bare| - 1] == ':')
  }

  lemma StrippedIff(full: string, bare: string)
    requires ':' !in bare
    ensures StripModule(full) == bare <==> IsCalled(full, bare)
  {
    StripModuleMeaning(full);
    if IsCalled(full, bare) {
      var prefix := full[..|full| - |bare|];
      LastColon(prefix, bare);
      assert full == prefix + bare;
    }
  }

  /** A leaf that makes its parent an interface instance. */
  predicate IsNameLeaf(f: Field) {
    StripModule(f.name) == "name" && f.value != NoValue
  }

  predicate IsIface(f: Field) {
    exists i :: 0 <= i < |f.fields| && IsNameLeaf(f.fields[i])
  }

  /** A field is an interface instance exactly when some direct child called "name", with or without a module
      prefix, has a value, of whatever kind: text, a number, or another scalar. */
  lemma IsIfaceIff(f: Field)
    ensures IsIface(f) <==>
            exists i :: 0 <= i < |f.fields| && IsCalled(f.fields[i].name, "name") &&
                        (f.fields[i].value.StringValue? || f.fields[i].value.Uint32Value? || f.fields[i].value.OtherValue?)
  {
    forall i | 0 <= i < |f.fields|
      ensures IsNameLeaf(f.fields[i]) <==>
              IsCalled(f.fields[i].name, "name") &&
              (f.fields[i].value.StringValue? || f.fields[i].value.Uint32Value? || f.fields[i].value.OtherValue?)
    {
      StrippedIff(f.fields[i].name, "name");
    }
  }

  /** What the field says when it is read as text: its string, or the empty one for a value of another kind. */
  predicate SaysText(f: Field, text: string) {
    f.value == StringValue(text) || (text == "" && !f.value.StringValue?)
  }

  predicate SaysNumber(f: Field, number: int) {
    (f.value.Uint32Value? && f.value.number == number) || (number == 0 && !f.value.Uint32Value?)
  }

  lemma GettersMeaning(f: Field)
    ensures forall text :: SaysText(f, text) <==> text == GetString(f)
    ensures forall number :: SaysNumber(f, number) <==> number == GetUint32(f)
  {
  }
}
