/** The shared base of the value objects: an immutable wrapper around one
    value, compared by the JSON serialisation of the wrapped values
    (src/shared/types/common.ts). The `Entity<T>` interface of the same file
    (a read-only id and an `equals` over entities) is realised by the user
    entity in module Users. */
module Common {
  import JsonString

  /** A value object. The wrapped value is fixed when it is built: a datatype
      value has no field that could be reassigned. */
  datatype ValueObject<T> = ValueObject(value: T) {

    function GetValue(): T { value }

    /** `equals`: the serialisations of the two wrapped values are identical.
        `stringify` is the serialiser for `T` (`JSON.stringify`). */
    predicate Equals(other: ValueObject<T>, stringify: T -> string) {
      stringify(value) == stringify(other.value)
    }
  }

  /** `equals` for value objects that wrap strings, with the JSON string
      encoder as serialiser. */
  predicate StringEquals(a: ValueObject<string>, b: ValueObject<string>) {
    a.Equals(b, JsonString.Stringify)
  }

  /** `getValue` returns exactly the value the object was built from. */
  lemma GetValueIsConstructorArgument<T>(v: T)
    ensures ValueObject(v).GetValue() == v
  {
  }

  /** Whatever the serialiser, `equals` is an equivalence relation. */
  lemma EqualsIsEquivalence<T>(stringify: T -> string, a: ValueObject<T>, b: ValueObject<T>, c: ValueObject<T>)
    ensures a.Equals(a, stringify)
    ensures a.Equals(b, stringify) <==> b.Equals(a, stringify)
    ensures a.Equals(b, stringify) && b.Equals(c, stringify) ==> a.Equals(c, stringify)
  {
  }

  /** For strings, `equals` holds exactly when the wrapped strings are identical. */
  lemma StringEqualsIffSameValue(a: ValueObject<string>, b: ValueObject<string>)
    ensures StringEquals(a, b) <==> a.value == b.value
  {
    JsonString.StringifyInjective(a.value, b.value);
  }
}
