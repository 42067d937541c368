/** The types of the analysis and the runtime values they stand for. */
module ValueTypes {
  import opened Wrappers

  datatype ValueType =
    | Any
    | Nil
    | Boolean(lit: Option<bool>)
    | Number
    | String(text: Option<string>)
    | Function(func: Option<nat>)
    | Table(table: Option<nat>)
    | Union(members: seq<ValueType>)
    | Intersection(parts: seq<ValueType>)
    | TypeVariable(name: string)
    | Userdata
    | Thread
    | OpaqueAlias(alias: string, inner: ValueType)
    | NumberLiteral(spelling: string)
    | KeyOf(target: string)
    | Secret(inner: ValueType)
    | FunctionSig(signature: string)
    | TableShape(shape: string)

  datatype EnumKind = NotEnum | NumberEnum | StringEnum

  /** What `type()` distinguishes. */
  datatype Kind = NilKind | BooleanKind | NumberKind | StringKind | TableKind | FunctionKind | UserdataKind | ThreadKind

  datatype Base =
    | NilValue
    | BooleanValue(b: bool)
    | NumberValue(n: int)
    | StringValue(s: string)
    | TableValue(owner: nat)
    | FunctionValue(f: nat)
    | UserdataValue
    | ThreadValue

  /** A runtime value: what it is, and whether it is secret. */
  datatype Value = Value(base: Base, secret: bool)

  /** What the names in types refer to. Everything the type algebra cannot see is arbitrary. */
  datatype Env = Env(
    enumKind: nat -> EnumKind,
    inEnum: (nat, Base) -> bool,
    number: string -> int,
    keys: (string, string) -> bool,
    generic: (string, Value) -> bool,
    signature: (string, nat) -> bool,
    shape: (string, nat) -> bool)

  function KindOf(b: Base): Kind {
    match b
    case NilValue => NilKind
    case BooleanValue(_) => BooleanKind
    case NumberValue(_) => NumberKind
    case StringValue(_) => StringKind
    case TableValue(_) => TableKind
    case FunctionValue(_) => FunctionKind
    case UserdataValue => UserdataKind
    case ThreadValue => ThreadKind
  }

  predicate IsFalsy(v: Value) {
    v.base == NilValue || v.base == BooleanValue(false)
  }

  function Flipped(v: Value): Value {
    v.(secret := !v.secret)
  }

  /** The values of class table `i`. The table of a `@enum` stands for its numbers or strings. */
  predicate InTable(env: Env, i: nat, b: Base) {
    match env.enumKind(i)
    case NotEnum => b == TableValue(i)
    case NumberEnum => b.NumberValue? && env.inEnum(i, b)
    case StringEnum => b.StringValue? && env.inEnum(i, b)
  }

  /** `v` is a value of type `t`. A secret type holds its values with or without the secret mark. */
  ghost predicate Has(env: Env, t: ValueType, v: Value) {
    match t
    case Any => true
    case Nil => v == Value(NilValue, false)
    case Boolean(lit) => v.base.BooleanValue? && !v.secret && (lit.Some? ==> v.base.b == lit.value)
    case Number => v.base.NumberValue? && !v.secret
    case NumberLiteral(spelling) => v == Value(NumberValue(env.number(spelling)), false)
    case String(text) => v.base.StringValue? && !v.secret && (text.Some? ==> v.base.s == text.value)
    case KeyOf(target) => v.base.StringValue? && !v.secret && env.keys(target, v.base.s)
    case Function(func) => v.base.FunctionValue? && !v.secret && (func.Some? ==> v.base.f == func.value)
    case FunctionSig(s) => v.base.FunctionValue? && !v.secret && env.signature(s, v.base.f)
    case Table(None) => v.base.TableValue? && !v.secret
    case Table(Some(i)) => InTable(env, i, v.base) && !v.secret
    case TableShape(s) => v.base.TableValue? && !v.secret && env.shape(s, v.base.owner)
    case Union(members) => exists i :: 0 <= i < |members| && Has(env, members[i], v)
    case Intersection(parts) => forall i :: 0 <= i < |parts| ==> Has(env, parts[i], v)
    case TypeVariable(name) => env.generic(name, v)
    case Userdata => v == Value(UserdataValue, false)
    case Thread => v == Value(ThreadValue, false)
    case OpaqueAlias(_, inner) => Has(env, inner, v)
    case Secret(inner) => Has(env, inner, v) || Has(env, inner, Flipped(v))
  }

  /** `v` is a value of one of `ts`. */
  ghost predicate HasAny(env: Env, ts: seq<ValueType>, v: Value) {
    exists t :: t in ts && Has(env, t, v)
  }

  function Members(t: ValueType): seq<ValueType> {
    if t.Union? then t.members else [t]
  }

  lemma HasMembers(env: Env, t: ValueType, v: Value)
    ensures Has(env, t, v) <==> HasAny(env, Members(t), v)
  {
    if t.Union? {
      if Has(env, t, v) {
        var i :| 0 <= i < |t.members| && Has(env, t.members[i], v);
        assert t.members[i] in t.members;
      }
      if HasAny(env, t.members, v) {
        var m :| m in t.members && Has(env, m, v);
        var i :| 0 <= i < |t.members| && t.members[i] == m;
      }
    } else {
      assert t in Members(t);
    }
  }
}
