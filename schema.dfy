/**
 * The header check of the upload form: which expected field names the sheet lacks,
 * which of its field names are not expected, and the error messages built from them.
 */
module Schema {
  import Text

  const MISSING_MESSAGE := "Following names are missing"
  const NOT_ALLOWED_MESSAGE := "Following names are not allowed"

  /** Fields the upload does not supply: the key, the timestamp, the owning file and the date. */
  const UNNECESSARY_FIELDS: seq<string> := ["primary_id", "created_at", "file", "date"]

  /** `[x for x in xs if x not in ys]`. */
  function Without(xs: seq<string>, ys: seq<string>): (r: seq<string>)
    ensures forall x :: x in r <==> x in xs && x !in ys
    ensures |r| <= |xs|
    decreases |xs|
  {
    if xs == [] then []
    else (if xs[0] in ys then [] else [xs[0]]) + Without(xs[1..], ys)
  }

  /** The filter keeps the order of `xs`. */
  lemma {:induction false} WithoutAppend(a: seq<string>, b: seq<string>, ys: seq<string>)
    ensures Without(a + b, ys) == Without(a, ys) + Without(b, ys)
    decreases |a|
  {
    if a != [] {
      assert (a + b)[1..] == a[1..] + b;
      WithoutAppend(a[1..], b, ys);
    } else {
      assert a + b == b;
    }
  }

  /** The filter keeps every occurrence of a name it keeps, duplicates included. */
  lemma {:induction false} WithoutCounts(xs: seq<string>, ys: seq<string>, x: string)
    ensures multiset(Without(xs, ys))[x] == if x in ys then 0 else multiset(xs)[x]
    decreases |xs|
  {
    if xs != [] {
      WithoutCounts(xs[1..], ys, x);
      assert xs == [xs[0]] + xs[1..];
    }
  }

  lemma WithoutEmptyIff(xs: seq<string>, ys: seq<string>)
    ensures Without(xs, ys) == [] <==> forall x :: x in xs ==> x in ys
  {
    if Without(xs, ys) != [] {
      assert Without(xs, ys)[0] in Without(xs, ys);
    }
  }

  /** The allowed field names: the data model's fields minus the unnecessary ones. */
  function AllowedFields(modelFields: seq<string>): (allowed: seq<string>)
    ensures forall x :: x in allowed <==> x in modelFields && x !in UNNECESSARY_FIELDS
  {
    Without(modelFields, UNNECESSARY_FIELDS)
  }

  /** `add_header_error`: one message `message: a, b, ...` when there are error fields, none otherwise. */
  function HeaderError(message: string, errorFields: seq<string>): (errs: seq<string>)
    ensures errs == [] <==> errorFields == []
    ensures |errs| <= 1
    ensures errs != [] ==> message + ": " <= errs[0]
  {
    if errorFields == [] then [] else [message + ": " + Text.Join(errorFields, ", ")]
  }

  /** `check_header`: the missing-names message, then the not-allowed-names message. */
  function CheckHeader(fieldNames: seq<string>, allowed: seq<string>): seq<string> {
    HeaderError(MISSING_MESSAGE, Without(allowed, fieldNames)) + HeaderError(NOT_ALLOWED_MESSAGE, Without(fieldNames, allowed))
  }

  /**
   * The check adds at most two messages: one listing, in allowed-list order, the allowed names
   * the sheet lacks, one listing, in sheet order, the sheet's names that are not allowed.
   */
  lemma CheckHeaderMessages(fieldNames: seq<string>, allowed: seq<string>)
    ensures |CheckHeader(fieldNames, allowed)| <= 2
    ensures (exists x :: x in allowed && x !in fieldNames) ==>
      CheckHeader(fieldNames, allowed)[0] == MISSING_MESSAGE + ": " + Text.Join(Without(allowed, fieldNames), ", ")
    ensures (exists x :: x in fieldNames && x !in allowed) ==>
      CheckHeader(fieldNames, allowed)[|CheckHeader(fieldNames, allowed)| - 1] ==
        NOT_ALLOWED_MESSAGE + ": " + Text.Join(Without(fieldNames, allowed), ", ")
  {
    if exists x :: x in allowed && x !in fieldNames {
      var x :| x in allowed && x !in fieldNames;
      assert x in Without(allowed, fieldNames);
    }
    if exists x :: x in fieldNames && x !in allowed {
      var x :| x in fieldNames && x !in allowed;
      assert x in Without(fieldNames, allowed);
    }
  }

  /** The header check passes exactly when the sheet's names and the allowed names form the same set. */
  lemma CheckHeaderPassesIff(fieldNames: seq<string>, allowed: seq<string>)
    ensures CheckHeader(fieldNames, allowed) == [] <==> (set x | x in fieldNames) == (set x | x in allowed)
  {
    var a := set x | x in fieldNames;
    var b := set x | x in allowed;
    if CheckHeader(fieldNames, allowed) == [] {
      assert Without(allowed, fieldNames) == [] && Without(fieldNames, allowed) == [];
      assert a == b;
    } else if a == b {
      assert forall x :: x in allowed ==> x in fieldNames by {
        forall x | x in allowed ensures x in fieldNames {
          assert x in b;
        }
      }
      assert forall x :: x in fieldNames ==> x in allowed by {
        forall x | x in fieldNames ensures x in allowed {
          assert x in a;
        }
      }
      WithoutEmptyIff(allowed, fieldNames);
      WithoutEmptyIff(fieldNames, allowed);
    }
  }

  /** A sheet lacking one allowed name gets one message naming it. */
  lemma MissingNameExample()
    ensures CheckHeader(["id", "date"], ["id", "date", "company"]) == [MISSING_MESSAGE + ": company"]
  {
    assert Without(["company"], ["id", "date"]) == ["company"];
    assert Without(["date", "company"], ["id", "date"]) == ["company"];
    assert Without(["id", "date", "company"], ["id", "date"]) == ["company"];
    assert Without(["date"], ["id", "date", "company"]) == [];
    assert Without(["id", "date"], ["id", "date", "company"]) == [];
    assert Text.Join(["company"], ", ") == "company";
    assert HeaderError(MISSING_MESSAGE, ["company"]) == [MISSING_MESSAGE + ": " + "company"];
    assert HeaderError(NOT_ALLOWED_MESSAGE, []) == [];
    assert ": " + "company" == ": company";
    assert MISSING_MESSAGE + ": " + "company" == MISSING_MESSAGE + ": company";
  }

  /** A sheet with one name too many gets one message naming it. */
  lemma NotAllowedNameExample()
    ensures CheckHeader(["id", "date", "extra"], ["id", "date"]) == [NOT_ALLOWED_MESSAGE + ": extra"]
  {
    assert Without(["date"], ["id", "date", "extra"]) == [];
    assert Without(["id", "date"], ["id", "date", "extra"]) == [];
    assert Without(["extra"], ["id", "date"]) == ["extra"];
    assert Without(["date", "extra"], ["id", "date"]) == ["extra"];
    assert Without(["id", "date", "extra"], ["id", "date"]) == ["extra"];
    assert Text.Join(["extra"], ", ") == "extra";
    assert HeaderError(MISSING_MESSAGE, []) == [];
    assert HeaderError(NOT_ALLOWED_MESSAGE, ["extra"]) == [NOT_ALLOWED_MESSAGE + ": " + "extra"];
    assert ": " + "extra" == ": extra";
    assert NOT_ALLOWED_MESSAGE + ": " + "extra" == NOT_ALLOWED_MESSAGE + ": extra";
  }
}
