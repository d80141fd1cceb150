/**
 * The two renderings of names done with `snprintf`: the edge label
 * `parent[@N]==>child[@M]` (tracing.c:146-177) and the exported function
 * name `Class::fn()` (tracing.c:179-186). `%d` of a positive level is its
 * decimal digits.
 */
module Symbols {
  import opened Wrappers
  import opened Buckets

  /** The character of one decimal digit. */
  function DigitChar(d: nat): (c: char)
    requires d < 10
    ensures '0' <= c <= '9'
  {
    ('0' as int + d) as char
  }

  /** `%d` of a non-negative number: its decimal digits, most significant first. */
  function Decimal(n: nat): string
    decreases n
  {
    if n < 10 then [DigitChar(n)] else Decimal(n / 10) + [DigitChar(n % 10)]
  }

  /** The number a string of decimal digits denotes. */
  function DecimalValue(s: string): int
    decreases |s|
  {
    if s == [] then 0 else DecimalValue(s[..|s| - 1]) * 10 + (s[|s| - 1] as int - '0' as int)
  }

  /** The digits of `n` read back give `n`. */
  lemma {:induction false} DecimalRoundTrip(n: nat)
    ensures DecimalValue(Decimal(n)) == n
    decreases n
  {
    if n >= 10 {
      var s := Decimal(n);
      assert s[..|s| - 1] == Decimal(n / 10);
      DecimalRoundTrip(n / 10);
    }
  }

  /** `%d` of a number is a non-empty string of digits, with no leading zero. */
  lemma {:induction false} DecimalIsDigits(n: nat)
    ensures |Decimal(n)| > 0
    ensures forall i :: 0 <= i < |Decimal(n)| ==> '0' <= Decimal(n)[i] <= '9'
    ensures n > 0 ==> Decimal(n)[0] != '0'
    decreases n
  {
    if n >= 10 {
      DecimalIsDigits(n / 10);
    }
  }

  /** The `@N` suffix of a name, present only for a positive recursion level. */
  function LevelSuffix(level: int): string
  {
    if level > 0 then "@" + Decimal(level) else ""
  }

  /** A name as the label prints it: `Class::fn[@N]` with a class, `fn[@N]` without. */
  function Qualified(cls: Option<string>, fn: Option<string>, level: int): string
  {
    (if cls.Some? then cls.value + "::" + GetOr(fn, "") else GetOr(fn, "")) + LevelSuffix(level)
  }

  /** The caller half of the label, ending in `==>`; empty for the root edge (tracing.c:148-162). */
  function ParentPart(b: Bucket): string
  {
    if b.parentClass.Some? || b.parentFunction.Some? then
      Qualified(b.parentClass, b.parentFunction, b.parentRecurseLevel) + "==>"
    else ""
  }

  /** The callee half of the label; nothing when the bucket has no child name (tracing.c:164-176). */
  function ChildPart(b: Bucket): string
  {
    if b.childClass.Some? || b.childFunction.Some? then
      Qualified(b.childClass, b.childFunction, b.childRecurseLevel)
    else ""
  }

  /** `tracing_callgraph_get_parent_child_name`. */
  function ParentChildName(b: Bucket): string
  {
    ParentPart(b) + ChildPart(b)
  }

  /** Whether a present name avoids the character `c`. */
  predicate Avoids(name: Option<string>, c: char)
  {
    name.Some? ==> c !in name.value
  }

  /**
   * The caller half of a label is empty exactly for a bucket with neither parent name,
   * whose label is then its callee half alone, and otherwise ends in `==>`; a present
   * class leads its half as `Class::fn`.
   */
  lemma LabelShape(b: Bucket)
    ensures b.parentClass.None? && b.parentFunction.None? ==> ParentChildName(b) == ChildPart(b)
    ensures ParentPart(b) == "" <==> b.parentClass.None? && b.parentFunction.None?
    ensures ParentPart(b) != "" ==> |ParentPart(b)| >= 3 && ParentPart(b)[|ParentPart(b)| - 3..] == "==>"
    ensures b.parentClass.Some? && b.parentFunction.Some? ==>
              var q := b.parentClass.value + "::" + b.parentFunction.value;
              |ParentPart(b)| >= |q| && ParentPart(b)[..|q|] == q
    ensures b.childClass.Some? && b.childFunction.Some? ==>
              var q := b.childClass.value + "::" + b.childFunction.value;
              |ChildPart(b)| >= |q| && ChildPart(b)[..|q|] == q
  {
  }

  /** For names without `@`, a rendered name carries an `@` exactly when its level is positive. */
  lemma SuffixExactlyWhenRecursive(cls: Option<string>, fn: Option<string>, level: int)
    requires Avoids(cls, '@') && Avoids(fn, '@')
    ensures '@' in Qualified(cls, fn, level) <==> level > 0
  {
    if level > 0 {
      assert Qualified(cls, fn, level)[|Qualified(cls, fn, level)| - |LevelSuffix(level)|] == '@';
    } else {
      assert LevelSuffix(level) == "";
    }
  }

  /** The same, on both halves of an edge label. */
  lemma LabelMarksRecursion(b: Bucket)
    requires Avoids(b.parentClass, '@') && Avoids(b.parentFunction, '@')
    requires Avoids(b.childClass, '@') && Avoids(b.childFunction, '@')
    ensures '@' in ParentPart(b) <==> (b.parentClass.Some? || b.parentFunction.Some?) && b.parentRecurseLevel > 0
    ensures '@' in ChildPart(b) <==> (b.childClass.Some? || b.childFunction.Some?) && b.childRecurseLevel > 0
  {
    SuffixExactlyWhenRecursive(b.parentClass, b.parentFunction, b.parentRecurseLevel);
    SuffixExactlyWhenRecursive(b.childClass, b.childFunction, b.childRecurseLevel);
    if b.parentClass.Some? || b.parentFunction.Some? {
      var q := Qualified(b.parentClass, b.parentFunction, b.parentRecurseLevel);
      assert '@' !in "==>";
      assert '@' in q + "==>" <==> '@' in q;
    }
  }

  /** The owner printed before `::` in an exported name: the class, or `closure` without one. */
  function Owner(cls: Option<string>): string
  {
    if cls.Some? then cls.value else "closure"
  }

  /** `tracing_callgraph_get_function_name`. */
  function FunctionName(cls: Option<string>, fn: string): (r: string)
    ensures |r| == |Owner(cls)| + |fn| + 4
  {
    Owner(cls) + "::" + fn + "()"
  }

  /** A free function or closure is exported exactly like a method of a class named `closure`. */
  lemma ClosureIsIndistinguishable(fn: string)
    ensures FunctionName(None, fn) == FunctionName(Some("closure"), fn)
  {
  }

  /** An exported name starts with its owner, followed by a colon. */
  lemma OwnerPrefix(cls: Option<string>, fn: string)
    ensures forall i :: 0 <= i < |Owner(cls)| ==> FunctionName(cls, fn)[i] == Owner(cls)[i]
    ensures FunctionName(cls, fn)[|Owner(cls)|] == ':'
  {
  }

  /** For owners without `:`, the exported name determines the owner and the function name. */
  lemma FunctionNameInjective(c1: Option<string>, f1: string, c2: Option<string>, f2: string)
    requires ':' !in Owner(c1) && ':' !in Owner(c2)
    requires FunctionName(c1, f1) == FunctionName(c2, f2)
    ensures Owner(c1) == Owner(c2) && f1 == f2
  {
    var s := FunctionName(c1, f1);
    var o1, o2 := Owner(c1), Owner(c2);
    OwnerPrefix(c1, f1);
    OwnerPrefix(c2, f2);
    assert |o1| == |o2|;
    assert o1 == s[..|o1|] == o2;
    assert f1 == s[|o1| + 2..|s| - 2] == f2;
  }
}
