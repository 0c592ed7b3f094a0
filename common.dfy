/** Types and sequence helpers shared by the alias registry and the singleton registry. */
module Common {

  /** Bean names and aliases are Java strings. */
  type Name = string

  datatype Option<T> = None | Some(value: T)

  /** The exceptions the two registries throw. */
  datatype Error =
    | IllegalArgument                     // java.lang.IllegalArgumentException (a failed Assert)
    | IllegalState                        // java.lang.IllegalStateException
    | NullPointer                         // java.lang.NullPointerException (auto-unboxing of null)
    | CurrentlyInCreation(bean: Name)     // BeanCurrentlyInCreationException
    | CreationNotAllowed(bean: Name)      // BeanCreationNotAllowedException
    | FactoryFailed(cause: Thrown, related: seq<Thrown>) // exception thrown by ObjectFactory.getObject

  /** An exception thrown by a callback; only a BeanCreationException collects related causes. */
  datatype Thrown = BeanCreationFailure(code: nat) | OtherFailure(code: nat)

  /** The result of a void Java method: it returns normally or throws. */
  datatype Outcome = Ok | Err(error: Error)

  /** The result of a Java method that returns a value or throws. */
  datatype Result<T> = Success(value: T) | Failure(error: Error)

  /** The characters `Character.isWhitespace` accepts in the ASCII range. */
  predicate IsWhitespace(c: char) {
    c == ' ' || c == '\t' || c == '\n' || c == '\r' || c == '\U{C}' || c == '\U{B}'
    || ('\U{1C}' <= c <= '\U{1F}')
  }

  /** `StringUtils.hasText`: the string holds a character that is not whitespace. */
  predicate HasText(s: string) {
    exists i | 0 <= i < |s| :: !IsWhitespace(s[i])
  }

  /** A `LinkedHashSet`/`List` without repeated elements. */
  predicate NoDups(s: seq<Name>) {
    forall i, j :: 0 <= i < j < |s| ==> s[i] != s[j]
  }

  /** The elements of a sequence, as a set. */
  function Elems(s: seq<Name>): (r: set<Name>)
    ensures forall x :: x in r <==> x in s
  {
    set x | x in s
  }

  /** `LinkedHashSet.add`: appends `x` unless it is already present. */
  function Insert(s: seq<Name>, x: Name): (r: seq<Name>)
    ensures x in r
    ensures forall y :: y in r <==> y in s || y == x
    ensures x in s ==> r == s
    ensures x !in s ==> r == s + [x]
    ensures NoDups(s) ==> NoDups(r)
  {
    if x in s then s else s + [x]
  }

  /** `LinkedHashSet.remove`: drops every occurrence of `x`, keeping the order of the rest. */
  function Without(s: seq<Name>, x: Name): (r: seq<Name>)
    ensures forall y :: y in r <==> y in s && y != x
    ensures |r| <= |s|
    ensures x !in s ==> r == s
    ensures NoDups(s) ==> NoDups(r)
  {
    if s == [] then []
    else if s[0] == x then Without(s[1..], x)
    else
      var rest := Without(s[1..], x);
      var r := [s[0]] + rest;
      assert NoDups(s) ==> NoDups(r) by {
        if NoDups(s) {
          assert s[0] !in s[1..];
          forall i, j | 0 <= i < j < |r| ensures r[i] != r[j] {
            assert r[j] == rest[j - 1] && r[j] in rest;
            if i > 0 { assert r[i] == rest[i - 1]; }
          }
        }
      }
      r
  }
  lemma InsertElems(s: seq<Name>, x: Name)
    ensures Elems(Insert(s, x)) == Elems(s) + {x}
  {
  }

  lemma WithoutElems(s: seq<Name>, x: Name)
    ensures Elems(Without(s, x)) == Elems(s) - {x}
  {
  }

  /** A duplicate-free sequence has as many elements as its set of elements. */
  lemma {:induction false} NoDupsCard(s: seq<Name>)
    requires NoDups(s)
    ensures |Elems(s)| == |s|
  {
    if s != [] {
      assert NoDups(s[1..]) by {
        forall i, j | 0 <= i < j < |s[1..]| ensures s[1..][i] != s[1..][j] {
          assert s[1..][i] == s[i + 1] && s[1..][j] == s[j + 1];
        }
      }
      NoDupsCard(s[1..]);
      assert s[0] !in s[1..] by {
        forall k | 0 <= k < |s[1..]| ensures s[1..][k] != s[0] {
          assert s[1..][k] == s[k + 1];
        }
      }
      assert Elems(s) == Elems(s[1..]) + {s[0]};
    }
  }

  /** Two duplicate-free sequences with no common element concatenate to one. */
  lemma NoDupsConcat(a: seq<Name>, b: seq<Name>)
    requires NoDups(a) && NoDups(b) && Elems(a) !! Elems(b)
    ensures NoDups(a + b)
  {
    var c := a + b;
    forall i, j | 0 <= i < j < |c| ensures c[i] != c[j] {
      if j >= |a| && i < |a| {
        assert c[i] in Elems(a) && c[j] == b[j - |a|] && c[j] in Elems(b);
      } else if i >= |a| {
        assert c[i] == b[i - |a|] && c[j] == b[j - |a|];
      }
    }
  }
}
