/**
 * The schema-free search `extractModelUrl` (src/components/AlephIIIF.tsx, lines 17-48):
 * it walks a JSON-like value and returns the first string it judges to be a glTF/GLB
 * reference, or nothing.
 */
module Extraction {
  import opened Wrappers
  import opened ModelUrl

  /** A JSON-like value. An object keeps its keys in the order `Object.keys` lists them;
      `JOther` stands for null, numbers and booleans. */
  datatype Json =
    | JString(s: string)
    | JArray(items: seq<Json>)
    | JObject(fields: seq<(string, Json)>)
    | JOther

  /** Property access `record[key]`: the value of the first field named `key`, if any. */
  function Get(fields: seq<(string, Json)>, key: string): (r: Option<Json>)
    ensures r.Some? ==> exists k :: 0 <= k < |fields| && fields[k] == (key, r.value)
    ensures r.None? ==> forall k :: 0 <= k < |fields| ==> fields[k].0 != key
  {
    if fields == [] then None
    else if fields[0].0 == key then Some(fields[0].1)
    else Get(fields[1..], key)
  }

  /** `typeof record[key] === "string" && record[key]`: the field when it holds a
      non-empty string. */
  function NonEmptyString(fields: seq<(string, Json)>, key: string): Option<string>
  {
    match Get(fields, key)
    case Some(JString(s)) => if s != "" then Some(s) else None
    case _ => None
  }

  /** The identifier fields, in the order they are tried. */
  const IdKeys: seq<string> := ["id", "@id", "url", "href"]

  /** The object's candidate URL (lines 30-35): `id`, else `@id`, else `url`, else `href`,
      each taken only when it is a non-empty string. */
  function Candidate(fields: seq<(string, Json)>): (r: Option<string>)
    ensures r.Some? ==>
      r.value != "" && exists i :: 0 <= i < |IdKeys| && NonEmptyString(fields, IdKeys[i]) == r
    ensures r.None? ==> forall i :: 0 <= i < |IdKeys| ==> NonEmptyString(fields, IdKeys[i]).None?
  {
    assert IdKeys[0] == "id" && IdKeys[1] == "@id" && IdKeys[2] == "url" && IdKeys[3] == "href";
    var id := NonEmptyString(fields, "id");
    if id.Some? then id else
    var atId := NonEmptyString(fields, "@id");
    if atId.Some? then atId else
    var url := NonEmptyString(fields, "url");
    if url.Some? then url else
    NonEmptyString(fields, "href")
  }

  /** `isModelFormat(record.format)`: a missing or non-string `format` never qualifies. */
  predicate FormatIsModel(fields: seq<(string, Json)>)
  {
    match Get(fields, "format")
    case Some(JString(f)) => IsModelFormat(f)
    case _ => false
  }

  /** The direct identification at an object (line 37): the candidate, if it is a model
      URL or the object declares a model media type. */
  function Direct(fields: seq<(string, Json)>): (r: Option<string>)
    ensures r.Some? ==> r == Candidate(fields) && (IsModelUrl(r.value) || FormatIsModel(fields))
    ensures Candidate(fields).Some? && IsModelUrl(Candidate(fields).value) ==> r == Candidate(fields)
    ensures Candidate(fields).Some? && FormatIsModel(fields) ==> r == Candidate(fields)
  {
    match Candidate(fields)
    case Some(u) => if IsModelUrl(u) || FormatIsModel(fields) then Some(u) else None
    case None => None
  }

  /** JavaScript truthiness of the search result (`if (found)`). */
  predicate Truthy(found: Option<string>)
  {
    found.Some? && found.value != ""
  }

  /** `extractModelUrl`. Whatever it returns is a non-empty string, so the callers' `if (found)`
      coincides with "found is not null". */
  function Extract(data: Json): (r: Option<string>)
    decreases data
    ensures r.Some? ==> r.value != ""
  {
    match data
    case JString(s) => if IsModelUrl(s) then Some(s) else None
    case JArray(items) => FirstInItems(items)
    case JObject(fields) =>
      var direct := Direct(fields);
      if direct.Some? then direct else FirstInFields(fields)
    case JOther => None
  }

  /** The loop over an array's elements (lines 21-25): the first truthy result. */
  function FirstInItems(items: seq<Json>): (r: Option<string>)
    decreases items
    ensures r.Some? ==> r.value != ""
  {
    if items == [] then None
    else
      var found := Extract(items[0]);
      if Truthy(found) then found else FirstInItems(items[1..])
  }

  /** The loop over an object's values in key order (lines 41-44): the first truthy result. */
  function FirstInFields(fields: seq<(string, Json)>): (r: Option<string>)
    decreases fields
    ensures r.Some? ==> r.value != ""
  {
    if fields == [] then None
    else
      var field := fields[0];
      assert field.1 < field;
      var found := Extract(field.1);
      if Truthy(found) then found else FirstInFields(fields[1..])
  }

  // ---------------------------------------------------------------------------------
  // Reference definition of what the search may return.

  /** `u` is the value of a string somewhere in `data` (object keys are not values). */
  ghost predicate Occurs(u: string, data: Json)
    decreases data
  {
    match data
    case JString(s) => s == u
    case JArray(items) => exists k :: 0 <= k < |items| && Occurs(u, items[k])
    case JObject(fields) => exists k :: 0 <= k < |fields| && Occurs(u, fields[k].1)
    case JOther => false
  }

  /** Some object in `data` names `u` as its candidate URL and declares a model media type. */
  ghost predicate FormatTagged(u: string, data: Json)
    decreases data
  {
    match data
    case JString(_) => false
    case JArray(items) => exists k :: 0 <= k < |items| && FormatTagged(u, items[k])
    case JObject(fields) =>
      (Candidate(fields) == Some(u) && FormatIsModel(fields)) ||
      exists k :: 0 <= k < |fields| && FormatTagged(u, fields[k].1)
    case JOther => false
  }

  /** `u` is an acceptable answer for `data`: a model URL occurring in it, or the candidate
      URL of a format-tagged object inside it. */
  ghost predicate Acceptable(u: string, data: Json)
  {
    (IsModelUrl(u) && Occurs(u, data)) || FormatTagged(u, data)
  }

  // ---------------------------------------------------------------------------------
  // First-match order.

  /** An array yields the result of its first element whose result is not null. */
  lemma {:induction false} FirstInItemsSpec(items: seq<Json>, u: string)
    ensures FirstInItems(items) == Some(u) <==>
      exists k :: 0 <= k < |items| && Extract(items[k]) == Some(u) &&
        forall m :: 0 <= m < k ==> Extract(items[m]).None?
    decreases items
  {
    if items != [] {
      var rest := items[1..];
      FirstInItemsSpec(rest, u);
      if FirstInItems(items) == Some(u) && !Truthy(Extract(items[0])) {
        var k :| 0 <= k < |rest| && Extract(rest[k]) == Some(u) &&
          forall m :: 0 <= m < k ==> Extract(rest[m]).None?;
        assert Extract(items[k + 1]) == Some(u);
        assert forall m :: 0 <= m < k + 1 ==> Extract(items[m]).None? by {
          forall m | 0 <= m < k + 1 ensures Extract(items[m]).None? {
            if m > 0 { assert items[m] == rest[m - 1]; }
          }
        }
      }
      if exists k :: 0 <= k < |items| && Extract(items[k]) == Some(u) &&
          forall m :: 0 <= m < k ==> Extract(items[m]).None? {
        var k :| 0 <= k < |items| && Extract(items[k]) == Some(u) &&
          forall m :: 0 <= m < k ==> Extract(items[m]).None?;
        if k > 0 {
          assert Extract(rest[k - 1]) == Some(u);
          assert forall m :: 0 <= m < k - 1 ==> Extract(rest[m]).None? by {
            forall m | 0 <= m < k - 1 ensures Extract(rest[m]).None? {
              assert rest[m] == items[m + 1];
            }
          }
        }
      }
    }
  }

  /** An array yields null exactly when every element does. */
  lemma {:induction false} FirstInItemsNone(items: seq<Json>)
    ensures FirstInItems(items).None? <==> forall k :: 0 <= k < |items| ==> Extract(items[k]).None?
    decreases items
  {
    if items != [] {
      var rest := items[1..];
      FirstInItemsNone(rest);
      assert forall k :: 1 <= k < |items| ==> items[k] == rest[k - 1];
    }
  }

  /** An object's children are searched in key order, and the first non-null result wins. */
  lemma {:induction false} FirstInFieldsSpec(fields: seq<(string, Json)>, u: string)
    ensures FirstInFields(fields) == Some(u) <==>
      exists k :: 0 <= k < |fields| && Extract(fields[k].1) == Some(u) &&
        forall m :: 0 <= m < k ==> Extract(fields[m].1).None?
    decreases fields
  {
    if fields != [] {
      var rest := fields[1..];
      FirstInFieldsSpec(rest, u);
      if FirstInFields(fields) == Some(u) && !Truthy(Extract(fields[0].1)) {
        var k :| 0 <= k < |rest| && Extract(rest[k].1) == Some(u) &&
          forall m :: 0 <= m < k ==> Extract(rest[m].1).None?;
        assert Extract(fields[k + 1].1) == Some(u);
        assert forall m :: 0 <= m < k + 1 ==> Extract(fields[m].1).None? by {
          forall m | 0 <= m < k + 1 ensures Extract(fields[m].1).None? {
            if m > 0 { assert fields[m] == rest[m - 1]; }
          }
        }
      }
      if exists k :: 0 <= k < |fields| && Extract(fields[k].1) == Some(u) &&
          forall m :: 0 <= m < k ==> Extract(fields[m].1).None? {
        var k :| 0 <= k < |fields| && Extract(fields[k].1) == Some(u) &&
          forall m :: 0 <= m < k ==> Extract(fields[m].1).None?;
        if k > 0 {
          assert Extract(rest[k - 1].1) == Some(u);
          assert forall m :: 0 <= m < k - 1 ==> Extract(rest[m].1).None? by {
            forall m | 0 <= m < k - 1 ensures Extract(rest[m].1).None? {
              assert rest[m] == fields[m + 1];
            }
          }
        }
      }
    }
  }

  /** An object's children yield null exactly when every child does. */
  lemma {:induction false} FirstInFieldsNone(fields: seq<(string, Json)>)
    ensures FirstInFields(fields).None? <==>
      forall k :: 0 <= k < |fields| ==> Extract(fields[k].1).None?
    decreases fields
  {
    if fields != [] {
      var rest := fields[1..];
      FirstInFieldsNone(rest);
      assert forall k :: 1 <= k < |fields| ==> fields[k] == rest[k - 1];
    }
  }

  /** At an object the direct identification wins over every child; only when it fails are
      the children searched, in key order. */
  lemma ObjectPrecedence(fields: seq<(string, Json)>, u: string)
    ensures Extract(JObject(fields)) == Some(u) <==>
      Direct(fields) == Some(u) ||
      (Direct(fields).None? &&
       exists k :: 0 <= k < |fields| && Extract(fields[k].1) == Some(u) &&
         forall m :: 0 <= m < k ==> Extract(fields[m].1).None?)
  {
    FirstInFieldsSpec(fields, u);
  }

  /** The candidate is the value of the first identifier field, in the order `id`, `@id`,
      `url`, `href`, that holds a non-empty string. */
  lemma CandidateIsFirstIdKey(fields: seq<(string, Json)>, u: string)
    ensures Candidate(fields) == Some(u) <==>
      exists i :: 0 <= i < |IdKeys| && NonEmptyString(fields, IdKeys[i]) == Some(u) &&
        forall m :: 0 <= m < i ==> NonEmptyString(fields, IdKeys[m]).None?
  {
    var found := seq(4, i requires 0 <= i < 4 => NonEmptyString(fields, IdKeys[i]));
    assert Candidate(fields) ==
      if found[0].Some? then found[0] else if found[1].Some? then found[1]
      else if found[2].Some? then found[2] else found[3];
    if Candidate(fields) == Some(u) {
      var i := if found[0].Some? then 0 else if found[1].Some? then 1
               else if found[2].Some? then 2 else 3;
      assert found[i] == Some(u) && forall m :: 0 <= m < i ==> found[m].None?;
    }
  }

  /** The candidate is a non-empty string value of one of the object's fields. */
  lemma CandidateOccurs(fields: seq<(string, Json)>, u: string)
    requires Candidate(fields) == Some(u)
    ensures u != "" && exists k :: 0 <= k < |fields| && fields[k].1 == JString(u)
  {
  }

  // ---------------------------------------------------------------------------------
  // Soundness and completeness of the search.

  /** Whatever the search returns is a non-empty string occurring in the input, and it is
      either a model URL or the candidate URL of a format-tagged object. */
  lemma {:induction false} ExtractSound(data: Json, u: string)
    requires Extract(data) == Some(u)
    ensures u != "" && Occurs(u, data) && Acceptable(u, data)
    decreases data
  {
    match data
    case JString(s) =>
    case JArray(items) =>
      FirstInItemsSpec(items, u);
      var k :| 0 <= k < |items| && Extract(items[k]) == Some(u) &&
        forall m :: 0 <= m < k ==> Extract(items[m]).None?;
      ExtractSound(items[k], u);
    case JObject(fields) =>
      if Direct(fields).Some? {
        CandidateOccurs(fields, u);
        var k :| 0 <= k < |fields| && fields[k].1 == JString(u);
        assert Occurs(u, fields[k].1);
      } else {
        FirstInFieldsSpec(fields, u);
        var k :| 0 <= k < |fields| && Extract(fields[k].1) == Some(u) &&
          forall m :: 0 <= m < k ==> Extract(fields[m].1).None?;
        var field := fields[k];
        assert field.1 < field;
        ExtractSound(field.1, u);
      }
  }

  /** If the input holds an acceptable answer, the search finds one. */
  lemma {:induction false} ExtractComplete(data: Json, u: string)
    requires Acceptable(u, data)
    ensures Extract(data).Some?
    decreases data
  {
    match data
    case JString(s) =>
    case JArray(items) =>
      var k :| 0 <= k < |items| && Acceptable(u, items[k]);
      ExtractComplete(items[k], u);
      FirstInItemsNone(items);
    case JObject(fields) =>
      if Direct(fields).None? {
        if IsModelUrl(u) && Occurs(u, data) {
          var k :| 0 <= k < |fields| && Occurs(u, fields[k].1);
          var field := fields[k];
          assert field.1 < field;
          assert Acceptable(u, field.1);
          ExtractComplete(field.1, u);
        } else {
          var k :| 0 <= k < |fields| && FormatTagged(u, fields[k].1);
          var field := fields[k];
          assert field.1 < field;
          assert Acceptable(u, field.1);
          ExtractComplete(field.1, u);
        }
        FirstInFieldsNone(fields);
      }
  }

  /** The search yields null exactly when the input holds no acceptable answer; it never fails
      in any other way. */
  lemma ExtractNoneIff(data: Json)
    ensures Extract(data).None? <==> forall u :: !Acceptable(u, data)
  {
    if Extract(data).Some? {
      ExtractSound(data, Extract(data).value);
    }
    forall u | Acceptable(u, data) ensures Extract(data).Some? {
      ExtractComplete(data, u);
    }
  }

  /** When the input holds exactly one acceptable answer, at any depth, the search returns it. */
  lemma ExtractFindsUnique(data: Json, u: string)
    requires Acceptable(u, data)
    requires forall w :: Acceptable(w, data) ==> w == u
    ensures Extract(data) == Some(u)
  {
    ExtractComplete(data, u);
    ExtractSound(data, Extract(data).value);
  }

  /** A string is returned unchanged when it is a model URL, and yields null otherwise. */
  lemma ExtractString(s: string)
    ensures Extract(JString(s)) == Some(s) <==> HasModelExtension(s)
    ensures Extract(JString(s)).None? <==> !HasModelExtension(s)
  {
    IsModelUrlSpec(s);
  }

  /** A `format` of `model/...` accepts the candidate although it lacks a model extension. */
  lemma FormatOverrideExample()
    ensures Extract(JObject([("id", JString("https://x/a.png")),
                             ("format", JString("model/gltf-binary"))])) == Some("https://x/a.png")
  {
  }
}
