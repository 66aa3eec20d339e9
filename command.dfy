/** The option validators of `setuptools.Command`: `_ensure_stringlike` and
    `ensure_string_list` read a dynamically typed option attribute of the
    command and either accept it, normalise it in place, or raise
    `DistutilsOptionError`. */
module Setuptools {
  import opened Wrappers
  import opened OptionSplit

  /** The value of an option attribute, by its runtime type: `None`, a `str`,
      a `list`, or anything else (a tuple, a number, ...), named by its type. */
  datatype Value = NoneValue | Str(s: string) | List(items: seq<Value>) | Other(kind: string)

  /** `AttributeError` from reading a missing attribute, or `DistutilsOptionError`
      naming the option, what was expected of it, and the value it held. */
  datatype CommandError =
    | AttributeError(name: string)
    | OptionError(option: string, expected: string, got: Value)

  const StringListKind := "list of strings"

  /** `isinstance(val, list) and all(isinstance(v, str) for v in val)` */
  predicate IsStringList(v: Value)
  {
    v.List? && forall k :: 0 <= k < |v.items| ==> v.items[k].Str?
  }

  /** A split result as the option's new value: a list of those strings. */
  function StringValues(pieces: seq<string>): (r: seq<Value>)
    ensures |r| == |pieces|
    ensures forall k :: 0 <= k < |r| ==> r[k] == Str(pieces[k])
  {
    if pieces == [] then [] else [Str(pieces[0])] + StringValues(pieces[1..])
  }

  /** `_ensure_stringlike(option, what, default)` on the option attributes:
      its result and the attributes after it. */
  function Stringlike(options: map<string, Value>, option: string, what: string, default: Value)
    : (Result<Value, CommandError>, map<string, Value>)
  {
    if option !in options then (Failure(AttributeError(option)), options)
    else match options[option]
      case NoneValue => (Success(default), options[option := default])
      case Str(_) => (Success(options[option]), options)
      case _ => (Failure(OptionError(option, what, options[option])), options)
  }

  /** `ensure_string_list(option)` on the option attributes: whether it raised
      and the attributes after it. */
  function StringList(options: map<string, Value>, option: string): (Outcome<CommandError>, map<string, Value>)
  {
    if option !in options then (Fail(AttributeError(option)), options)
    else match options[option]
      case NoneValue => (Pass, options)
      case Str(s) => (Pass, options[option := List(StringValues(Split(s)))])
      case _ =>
        if IsStringList(options[option]) then (Pass, options)
        else (Fail(OptionError(option, StringListKind, options[option])), options)
  }

  /** `_ensure_stringlike` succeeds exactly on `None` and strings. A `None` option
      is set to the default, which is returned; a string is returned and left in
      place; anything else raises naming the option, `what` and the value, and
      nothing changes. In every successful case the option afterwards holds the
      value returned. */
  lemma StringlikeOutcomes(options: map<string, Value>, option: string, what: string, default: Value)
    ensures var (r, after) := Stringlike(options, option, what, default);
      && (r.Success? <==> option in options && (options[option].NoneValue? || options[option].Str?))
      && (r.Success? ==> option in after && after[option] == r.value)
      && (r.Success? && options[option].NoneValue? ==> r.value == default && after == options[option := default])
      && (r.Success? && options[option].Str? ==> r.value == options[option] && after == options)
      && (option in options && r.Failure? ==> r.error == OptionError(option, what, options[option]))
      && (r.Failure? ==> after == options)
  {
  }

  /** With a `None` or string default a second call changes nothing and returns
      the same value. */
  lemma StringlikeIdempotent(options: map<string, Value>, option: string, what: string, default: Value)
    requires default.NoneValue? || default.Str?
    requires Stringlike(options, option, what, default).0.Success?
    ensures var (r, after) := Stringlike(options, option, what, default);
      Stringlike(after, option, what, default) == (r, after)
  {
    var after := Stringlike(options, option, what, default).1;
    if options[option].NoneValue? && default.NoneValue? {
      assert after[option := default] == after;
    }
  }

  /** The default is stored without being checked: a default that is not a
      string makes a later call on the same option raise. */
  lemma StringlikeDefaultUnchecked(options: map<string, Value>, option: string, what: string, default: Value)
    requires option in options && options[option].NoneValue?
    requires !default.NoneValue? && !default.Str?
    ensures Stringlike(options, option, what, default).0 == Success(default)
    ensures var after := Stringlike(options, option, what, default).1;
      Stringlike(after, option, what, default).0 == Failure(OptionError(option, what, default))
  {
  }

  /** `ensure_string_list` raises nothing exactly for `None`, a string, or a
      list of strings; when it raises, nothing changes. */
  lemma StringListSucceedsIff(options: map<string, Value>, option: string)
    ensures var (r, after) := StringList(options, option);
      && (r.Pass? <==>
            option in options &&
            (options[option].NoneValue? || options[option].Str? || IsStringList(options[option])))
      && (option in options && r.Fail? ==> r.error == OptionError(option, StringListKind, options[option]))
      && (r.Fail? ==> after == options)
  {
  }

  /** After a successful call the option is `None` or a list of strings, no other
      attribute has changed, and an option that was not a string is left as it was. */
  lemma StringListNormalises(options: map<string, Value>, option: string)
    requires StringList(options, option).0.Pass?
    ensures var after := StringList(options, option).1;
      && after.Keys == options.Keys
      && (forall o :: o in options && o != option ==> after[o] == options[o])
      && (after[option].NoneValue? || IsStringList(after[option]))
      && (!options[option].Str? ==> after == options)
  {
  }

  /** A string option is replaced by the list of the pieces of its split, in
      order, none of which holds a comma or whitespace; a string with neither
      becomes the one-element list of itself. */
  lemma StringListSplitsString(options: map<string, Value>, option: string, s: string)
    requires option in options && options[option] == Str(s)
    ensures var after := StringList(options, option).1;
      && after[option] == List(StringValues(Split(s)))
      && |after[option].items| == |Split(s)|
      && (forall k :: 0 <= k < |after[option].items| ==> after[option].items[k] == Str(Split(s)[k]))
      && (forall k :: 0 <= k < |after[option].items| ==>
            after[option].items[k].Str? && Clean(after[option].items[k].s))
      && (Clean(s) ==> after[option] == List([Str(s)]))
  {
    SplitPiecesClean(s);
    SplitWholeIff(s);
  }

  /** A second `ensure_string_list` after a successful one raises nothing and
      changes nothing. */
  lemma StringListIdempotent(options: map<string, Value>, option: string)
    requires StringList(options, option).0.Pass?
    ensures var after := StringList(options, option).1;
      StringList(after, option) == (Pass, after)
  {
    StringListNormalises(options, option);
  }

  /** "foo,   bar baz" as an option becomes ["foo", "bar", "baz"]. */
  lemma StringListDocumentedExample(options: map<string, Value>, option: string)
    requires option in options && options[option] == Str("foo" + ",   " + "bar" + " " + "baz")
    ensures StringList(options, option) == (Pass, options[option := List([Str("foo"), Str("bar"), Str("baz")])])
  {
    SplitDocumentedMixed();
    assert StringValues(["foo", "bar", "baz"]) == [Str("foo"), Str("bar"), Str("baz")];
  }

  /** A command and its option attributes (`vars(self)`). */
  class Command {
    var options: map<string, Value>

    constructor(options: map<string, Value>)
      ensures this.options == options
    {
      this.options := options;
    }

    /** `_ensure_stringlike(option, what, default)` */
    method EnsureStringlike(option: string, what: string, default: Value) returns (r: Result<Value, CommandError>)
      modifies this
      ensures (r, options) == Stringlike(old(options), option, what, default)
    {
      if option !in options {
        return Failure(AttributeError(option));
      }
      var val := options[option];
      if val.NoneValue? {
        options := options[option := default];
        return Success(default);
      } else if !val.Str? {
        return Failure(OptionError(option, what, val));
      }
      return Success(val);
    }

    /** `ensure_string_list(option)` */
    method EnsureStringList(option: string) returns (r: Outcome<CommandError>)
      modifies this
      ensures (r, options) == StringList(old(options), option)
    {
      if option !in options {
        return Fail(AttributeError(option));
      }
      var val := options[option];
      if val.NoneValue? {
        return Pass;
      } else if val.Str? {
        options := options[option := List(StringValues(Split(val.s)))];
        return Pass;
      }
      var ok := IsStringList(val);
      if !ok {
        return Fail(OptionError(option, StringListKind, val));
      }
      return Pass;
    }
  }
}
