/** `src/schema.ts`: the JSON Schema every book configuration must satisfy.
    The schema is kept here twice: as data (`BookSchema`, the literal with its
    annotations dropped and its `$ref`s inlined, read by a small evaluator for
    the keywords it uses), and as the predicates `ValidBook`, `ValidChapter`,
    `ValidPage` and `ValidVariables`, which say directly what a valid document
    looks like. The lemmas show the two agree. */
module Schema {
  import opened Wrappers
  import opened JsonValues

  /** The `type` names the schema uses. Numbers are integers in this model,
      so `integer` and `number` accept the same values. */
  datatype TypeName = ObjectType | ArrayType | StringType | IntegerType | NumberType | BooleanType

  predicate HasType(j: Json, t: TypeName)
  {
    match t
    case ObjectType => j.Obj?
    case ArrayType => j.Arr?
    case StringType => j.Str?
    case IntegerType => j.Int?
    case NumberType => j.Int?
    case BooleanType => j.Bool?
  }

  /** The JSON Schema keywords the book schema uses. A `Node` carries `type`
      (empty: any type), `properties`, `required`, `items` and
      `additionalProperties`. */
  datatype Schema =
    | AllOf(all: seq<Schema>)
    | AnyOf(any: seq<Schema>)
    | OneOf(one: seq<Schema>)
    | Not(negated: Schema)
    | Node(types: seq<TypeName>, properties: seq<Property>, required: seq<string>,
           items: Option<Schema>, additional: Option<Schema>)

  /** One entry of `properties`. */
  datatype Property = Property(name: string, schema: Schema)

  /** `key` is one of the names `properties` lists. */
  predicate Named(properties: seq<Property>, key: string)
  {
    exists p :: 0 <= p < |properties| && properties[p].name == key
  }

  /** `key in obj` */
  predicate Has(members: seq<(string, Json)>, key: string)
  {
    Get(members, key).Some?
  }

  /** `type`: an empty list admits every value. */
  predicate TypeMatches(j: Json, types: seq<TypeName>)
  {
    types == [] || exists i :: 0 <= i < |types| && HasType(j, types[i])
  }

  /** `required` */
  predicate RequiredPresent(members: seq<(string, Json)>, required: seq<string>)
  {
    forall i :: 0 <= i < |required| ==> Has(members, required[i])
  }

  /** Whether `j` satisfies `s`, by the JSON Schema rules for these keywords:
      `properties`, `required` and `additionalProperties` constrain objects
      only, and `items` constrains arrays only. */
  predicate Satisfies(j: Json, s: Schema)
    decreases s
  {
    match s
    case AllOf(ss) => forall i :: 0 <= i < |ss| ==> Satisfies(j, ss[i])
    case AnyOf(ss) => exists i :: 0 <= i < |ss| && Satisfies(j, ss[i])
    case OneOf(ss) =>
      exists i :: 0 <= i < |ss| && Satisfies(j, ss[i])
        && forall k :: 0 <= k < |ss| && k != i ==> !Satisfies(j, ss[k])
    case Not(t) => !Satisfies(j, t)
    case Node(types, properties, required, items, additional) =>
      && TypeMatches(j, types)
      && (j.Obj? ==>
            && RequiredPresent(j.members, required)
            && (forall p :: 0 <= p < |properties| && Has(j.members, properties[p].name) ==>
                  Satisfies(Get(j.members, properties[p].name).value, properties[p].schema))
            && (additional.Some? ==>
                  forall i :: 0 <= i < |j.members| && !Named(properties, j.members[i].0) ==>
                    Satisfies(j.members[i].1, additional.value)))
      && (j.Arr? && items.Some? ==> forall i :: 0 <= i < |j.items| ==> Satisfies(j.items[i], items.value))
  }

  function Typed(types: seq<TypeName>): Schema
  {
    Node(types, [], [], None, None)
  }

  /** `{ type: 'object', required: [...] }` */
  function ObjectWith(required: seq<string>): Schema
  {
    Node([ObjectType], [], required, None, None)
  }

  /** The "maybe (either a or b)" rule: `anyOf: [{ oneOf: [object with a,
      object with b] }, { not: object with a and b }]`. */
  function MaybeEither(a: string, b: string): Schema
  {
    AnyOf([OneOf([ObjectWith([a]), ObjectWith([b])]), Not(ObjectWith([a, b]))])
  }

  /** `definitions.variables` */
  const VariablesSchema := Node([ObjectType], [], [], None, Some(Typed([StringType, NumberType])))

  /** `definitions.pages.items` */
  const PageSchema := Node([ObjectType],
    [Property("name", Typed([StringType])), Property("shortName", Typed([StringType])),
     Property("variables", VariablesSchema), Property("file", Typed([StringType])),
     Property("required", Typed([BooleanType]))],
    [], None, None)

  /** `definitions.pages` */
  const PagesSchema := Node([ArrayType], [], [], Some(PageSchema), None)

  /** `definitions.chapter` */
  const ChapterSchema := AllOf([
    Node([ObjectType],
      [Property("name", Typed([StringType])), Property("variables", VariablesSchema),
       Property("pages", PagesSchema), Property("lessons", PagesSchema)],
      [], None, None),
    MaybeEither("lessons", "pages")])

  /** `definitions.chapters` */
  const ChaptersSchema := Node([ArrayType], [], [], Some(ChapterSchema), None)

  /** `bookSchema` */
  const BookSchema := AllOf([
    Node([ObjectType],
      [Property("name", Typed([StringType])), Property("description", Typed([StringType])),
       Property("sortOrder", Typed([IntegerType])), Property("variables", VariablesSchema),
       Property("chapters", ChaptersSchema), Property("modules", ChaptersSchema)],
      ["name", "sortOrder"], None, None),
    MaybeEither("chapters", "modules")])

  /** The member `key`, when present, is a string. */
  predicate OptionalString(members: seq<(string, Json)>, key: string)
  {
    Has(members, key) ==> Get(members, key).value.Str?
  }

  /** A `variables` value: an object whose every value is a string or a number. */
  predicate ValidVariables(j: Json)
  {
    j.Obj? && forall i :: 0 <= i < |j.members| ==> j.members[i].1.Str? || j.members[i].1.Int?
  }

  /** A page: an object whose `name`, `shortName` and `file` are strings, whose
      `required` is a boolean and whose `variables` are valid, each when
      present; any other member is allowed. */
  predicate ValidPage(j: Json)
  {
    && j.Obj?
    && OptionalString(j.members, "name")
    && OptionalString(j.members, "shortName")
    && (Has(j.members, "variables") ==> ValidVariables(Get(j.members, "variables").value))
    && OptionalString(j.members, "file")
    && (Has(j.members, "required") ==> Get(j.members, "required").value.Bool?)
  }

  predicate ValidPages(j: Json)
  {
    j.Arr? && forall i :: 0 <= i < |j.items| ==> ValidPage(j.items[i])
  }

  /** A chapter: an object with a string `name`, valid `variables` and valid
      `pages` and `lessons` when present, and not both `pages` and `lessons`.
      No member is required. */
  predicate ValidChapter(j: Json)
  {
    && j.Obj?
    && OptionalString(j.members, "name")
    && (Has(j.members, "variables") ==> ValidVariables(Get(j.members, "variables").value))
    && (Has(j.members, "pages") ==> ValidPages(Get(j.members, "pages").value))
    && (Has(j.members, "lessons") ==> ValidPages(Get(j.members, "lessons").value))
    && !(Has(j.members, "lessons") && Has(j.members, "pages"))
  }

  predicate ValidChapters(j: Json)
  {
    j.Arr? && forall i :: 0 <= i < |j.items| ==> ValidChapter(j.items[i])
  }

  /** A book: an object with a string `name` and an integer `sortOrder`, a
      string `description`, valid `variables` and valid `chapters` and
      `modules` when present, and not both `chapters` and `modules`. */
  predicate ValidBook(j: Json)
  {
    && j.Obj?
    && Has(j.members, "name") && Has(j.members, "sortOrder")
    && OptionalString(j.members, "name")
    && OptionalString(j.members, "description")
    && Get(j.members, "sortOrder").value.Int?
    && (Has(j.members, "variables") ==> ValidVariables(Get(j.members, "variables").value))
    && (Has(j.members, "chapters") ==> ValidChapters(Get(j.members, "chapters").value))
    && (Has(j.members, "modules") ==> ValidChapters(Get(j.members, "modules").value))
    && !(Has(j.members, "chapters") && Has(j.members, "modules"))
  }

  lemma SingleType(j: Json, t: TypeName)
    ensures TypeMatches(j, [t]) <==> HasType(j, t)
  {
    assert [t][0] == t;
  }

  lemma TwoTypes(j: Json, t: TypeName, u: TypeName)
    ensures TypeMatches(j, [t, u]) <==> HasType(j, t) || HasType(j, u)
  {
    assert [t, u][0] == t && [t, u][1] == u;
  }

  /** The member a `properties` entry names, when present, satisfies its schema. */
  predicate PropertyHolds(members: seq<(string, Json)>, pr: Property)
  {
    Has(members, pr.name) ==> Satisfies(Get(members, pr.name).value, pr.schema)
  }

  /** A node of type `object` without `items` or `additionalProperties`
      requires an object with the required members whose named members
      satisfy their schemas. */
  lemma ObjectNode(j: Json, s: Schema)
    requires s.Node? && s.types == [ObjectType] && s.items.None? && s.additional.None?
    ensures Satisfies(j, s) <==>
      (j.Obj? && RequiredPresent(j.members, s.required)
       && forall p :: 0 <= p < |s.properties| ==> PropertyHolds(j.members, s.properties[p]))
  {
    SingleType(j, ObjectType);
  }

  lemma ObjectWithAgrees(j: Json, required: seq<string>)
    ensures Satisfies(j, ObjectWith(required)) <==> j.Obj? && RequiredPresent(j.members, required)
  {
    ObjectNode(j, ObjectWith(required));
  }

  /** The "maybe (either a or b)" rule forbids exactly having both: on an
      object with neither, with one, or on any other value it holds. */
  lemma MaybeEitherIsNotBoth(j: Json, a: string, b: string)
    ensures Satisfies(j, MaybeEither(a, b)) <==> !(j.Obj? && Has(j.members, a) && Has(j.members, b))
  {
    var sa, sb, sab := ObjectWith([a]), ObjectWith([b]), ObjectWith([a, b]);
    ObjectWithAgrees(j, [a]);
    ObjectWithAgrees(j, [b]);
    ObjectWithAgrees(j, [a, b]);
    if j.Obj? {
      assert [a][0] == a && [b][0] == b && [a, b][0] == a && [a, b][1] == b;
      assert RequiredPresent(j.members, [a]) <==> Has(j.members, a);
      assert RequiredPresent(j.members, [b]) <==> Has(j.members, b);
      assert RequiredPresent(j.members, [a, b]) <==> Has(j.members, a) && Has(j.members, b);
    }
    OneOfTwo(j, sa, sb);
    AnyOfTwo(j, OneOf([sa, sb]), Not(sab));
  }

  lemma AllOfTwo(j: Json, x: Schema, y: Schema)
    ensures Satisfies(j, AllOf([x, y])) <==> Satisfies(j, x) && Satisfies(j, y)
  {
    assert [x, y][0] == x && [x, y][1] == y;
  }

  lemma AnyOfTwo(j: Json, x: Schema, y: Schema)
    ensures Satisfies(j, AnyOf([x, y])) <==> Satisfies(j, x) || Satisfies(j, y)
  {
    assert [x, y][0] == x && [x, y][1] == y;
  }

  lemma OneOfTwo(j: Json, x: Schema, y: Schema)
    ensures Satisfies(j, OneOf([x, y])) <==> Satisfies(j, x) != Satisfies(j, y)
  {
    if Satisfies(j, OneOf([x, y])) {
      OneOfTwoOnlyOne(j, x, y);
    }
    if Satisfies(j, x) != Satisfies(j, y) {
      OneOfTwoWitness(j, x, y);
    }
  }

  lemma OneOfTwoOnlyOne(j: Json, x: Schema, y: Schema)
    requires Satisfies(j, OneOf([x, y]))
    ensures Satisfies(j, x) != Satisfies(j, y)
  {
    var ss := [x, y];
    var i :| 0 <= i < 2 && Satisfies(j, ss[i]) && forall k :: 0 <= k < 2 && k != i ==> !Satisfies(j, ss[k]);
    assert !Satisfies(j, ss[1 - i]);
  }

  lemma OneOfTwoWitness(j: Json, x: Schema, y: Schema)
    requires Satisfies(j, x) != Satisfies(j, y)
    ensures Satisfies(j, OneOf([x, y]))
  {
    var ss := [x, y];
    assert ss[0] == x && ss[1] == y;
    if Satisfies(j, x) {
      assert Satisfies(j, ss[0]) && forall k :: 0 <= k < |ss| && k != 0 ==> !Satisfies(j, ss[k]);
    } else {
      assert Satisfies(j, ss[1]) && forall k :: 0 <= k < |ss| && k != 1 ==> !Satisfies(j, ss[k]);
    }
  }

  lemma VariablesAgree(j: Json)
    ensures Satisfies(j, VariablesSchema) <==> ValidVariables(j)
  {
    forall v ensures Satisfies(v, Typed([StringType, NumberType])) <==> v.Str? || v.Int? {
      TwoTypes(v, StringType, NumberType);
    }
    SingleType(j, ObjectType);
    if j.Obj? {
      assert forall i :: 0 <= i < |j.members| ==> !Named([], j.members[i].0);
    }
  }

  lemma StringAgrees(ms: seq<(string, Json)>, key: string)
    ensures PropertyHolds(ms, Property(key, Typed([StringType]))) <==> OptionalString(ms, key)
  {
    if Has(ms, key) {
      SingleType(Get(ms, key).value, StringType);
    }
  }

  lemma VariablesPropertyAgrees(ms: seq<(string, Json)>)
    ensures PropertyHolds(ms, Property("variables", VariablesSchema))
      <==> (Has(ms, "variables") ==> ValidVariables(Get(ms, "variables").value))
  {
    if Has(ms, "variables") {
      VariablesAgree(Get(ms, "variables").value);
    }
  }

  lemma PagePropertiesAgree(ms: seq<(string, Json)>)
    ensures var props := PageSchema.properties;
      (forall p :: 0 <= p < |props| ==> PropertyHolds(ms, props[p]))
      <==> (&& OptionalString(ms, "name")
            && OptionalString(ms, "shortName")
            && (Has(ms, "variables") ==> ValidVariables(Get(ms, "variables").value))
            && OptionalString(ms, "file")
            && (Has(ms, "required") ==> Get(ms, "required").value.Bool?))
  {
    var props := PageSchema.properties;
    assert props == [props[0], props[1], props[2], props[3], props[4]];
    StringAgrees(ms, "name");
    StringAgrees(ms, "shortName");
    VariablesPropertyAgrees(ms);
    StringAgrees(ms, "file");
    if Has(ms, "required") {
      SingleType(Get(ms, "required").value, BooleanType);
    }
  }

  /** A page satisfies the page schema exactly when `ValidPage` holds. */
  lemma PageAgrees(j: Json)
    ensures Satisfies(j, PageSchema) <==> ValidPage(j)
  {
    ObjectNode(j, PageSchema);
    if j.Obj? {
      PagePropertiesAgree(j.members);
      assert RequiredPresent(j.members, []);
    }
  }

  lemma PagesAgree(j: Json)
    ensures Satisfies(j, PagesSchema) <==> ValidPages(j)
  {
    SingleType(j, ArrayType);
    if j.Arr? {
      forall i | 0 <= i < |j.items| ensures Satisfies(j.items[i], PageSchema) <==> ValidPage(j.items[i]) {
        PageAgrees(j.items[i]);
      }
    }
  }

  lemma PagesPropertyAgrees(ms: seq<(string, Json)>, key: string)
    ensures PropertyHolds(ms, Property(key, PagesSchema)) <==> (Has(ms, key) ==> ValidPages(Get(ms, key).value))
  {
    if Has(ms, key) {
      PagesAgree(Get(ms, key).value);
    }
  }

  lemma ChapterPropertiesAgree(ms: seq<(string, Json)>)
    ensures var props := ChapterSchema.all[0].properties;
      (forall p :: 0 <= p < |props| ==> PropertyHolds(ms, props[p]))
      <==> (&& OptionalString(ms, "name")
            && (Has(ms, "variables") ==> ValidVariables(Get(ms, "variables").value))
            && (Has(ms, "pages") ==> ValidPages(Get(ms, "pages").value))
            && (Has(ms, "lessons") ==> ValidPages(Get(ms, "lessons").value)))
  {
    var props := ChapterSchema.all[0].properties;
    assert props == [props[0], props[1], props[2], props[3]];
    StringAgrees(ms, "name");
    VariablesPropertyAgrees(ms);
    PagesPropertyAgrees(ms, "pages");
    PagesPropertyAgrees(ms, "lessons");
  }

  /** A chapter satisfies the chapter definition exactly when `ValidChapter` holds. */
  lemma ChapterAgrees(j: Json)
    ensures Satisfies(j, ChapterSchema) <==> ValidChapter(j)
  {
    var shape := ChapterSchema.all[0];
    ObjectNode(j, shape);
    MaybeEitherIsNotBoth(j, "lessons", "pages");
    if j.Obj? {
      ChapterPropertiesAgree(j.members);
      assert RequiredPresent(j.members, []);
    }
    ChapterSchemaParts(j);
  }

  lemma ChapterSchemaParts(j: Json)
    ensures Satisfies(j, ChapterSchema) <==> Satisfies(j, ChapterSchema.all[0]) && Satisfies(j, MaybeEither("lessons", "pages"))
  {
    AllOfTwo(j, ChapterSchema.all[0], MaybeEither("lessons", "pages"));
  }

  lemma ChaptersAgree(j: Json)
    ensures Satisfies(j, ChaptersSchema) <==> ValidChapters(j)
  {
    SingleType(j, ArrayType);
    if j.Arr? {
      forall i | 0 <= i < |j.items| ensures Satisfies(j.items[i], ChapterSchema) <==> ValidChapter(j.items[i]) {
        ChapterAgrees(j.items[i]);
      }
    }
  }

  lemma ChaptersPropertyAgrees(ms: seq<(string, Json)>, key: string)
    ensures PropertyHolds(ms, Property(key, ChaptersSchema)) <==> (Has(ms, key) ==> ValidChapters(Get(ms, key).value))
  {
    if Has(ms, key) {
      ChaptersAgree(Get(ms, key).value);
    }
  }

  lemma BookSchemaParts(j: Json)
    ensures Satisfies(j, BookSchema) <==> Satisfies(j, BookSchema.all[0]) && Satisfies(j, MaybeEither("chapters", "modules"))
  {
    AllOfTwo(j, BookSchema.all[0], MaybeEither("chapters", "modules"));
  }

  lemma BookPropertiesAgree(ms: seq<(string, Json)>)
    ensures var props := BookSchema.all[0].properties;
      (forall p :: 0 <= p < |props| ==> PropertyHolds(ms, props[p]))
      <==> (&& OptionalString(ms, "name")
            && OptionalString(ms, "description")
            && (Has(ms, "sortOrder") ==> Get(ms, "sortOrder").value.Int?)
            && (Has(ms, "variables") ==> ValidVariables(Get(ms, "variables").value))
            && (Has(ms, "chapters") ==> ValidChapters(Get(ms, "chapters").value))
            && (Has(ms, "modules") ==> ValidChapters(Get(ms, "modules").value)))
  {
    var props := BookSchema.all[0].properties;
    assert props == [props[0], props[1], props[2], props[3], props[4], props[5]];
    StringAgrees(ms, "name");
    StringAgrees(ms, "description");
    if Has(ms, "sortOrder") {
      SingleType(Get(ms, "sortOrder").value, IntegerType);
    }
    VariablesPropertyAgrees(ms);
    ChaptersPropertyAgrees(ms, "chapters");
    ChaptersPropertyAgrees(ms, "modules");
  }

  /** A document satisfies `bookSchema` exactly when `ValidBook` holds. */
  lemma BookAgrees(j: Json)
    ensures Satisfies(j, BookSchema) <==> ValidBook(j)
  {
    var shape := BookSchema.all[0];
    ObjectNode(j, shape);
    MaybeEitherIsNotBoth(j, "chapters", "modules");
    if j.Obj? {
      BookPropertiesAgree(j.members);
      assert RequiredPresent(j.members, ["name", "sortOrder"]) <==> Has(j.members, "name") && Has(j.members, "sortOrder") by {
        assert ["name", "sortOrder"][0] == "name" && ["name", "sortOrder"][1] == "sortOrder";
      }
    }
    BookSchemaParts(j);
  }

  /** A valid book is an object with both `name` and `sortOrder`, the name a
      string and the sort order an integer. */
  lemma ValidBookHasNameAndSortOrder(j: Json)
    requires Satisfies(j, BookSchema)
    ensures j.Obj? && Get(j.members, "name").Some? && Get(j.members, "sortOrder").Some?
    ensures Get(j.members, "name").value.Str? && Get(j.members, "sortOrder").value.Int?
  {
    BookAgrees(j);
  }

  /** Unknown members are allowed at every level: adding a member the schema
      does not name keeps a valid book, chapter or page valid. */
  lemma ExtraMemberInBook(ms: seq<(string, Json)>, k: string, v: Json)
    requires k !in {"name", "description", "sortOrder", "variables", "chapters", "modules"}
    ensures ValidBook(Obj(ms)) ==> ValidBook(Obj(ms + [(k, v)]))
  {
    GetAppendOther(ms, k, v, "name");
    GetAppendOther(ms, k, v, "description");
    GetAppendOther(ms, k, v, "sortOrder");
    GetAppendOther(ms, k, v, "variables");
    GetAppendOther(ms, k, v, "chapters");
    GetAppendOther(ms, k, v, "modules");
    BookMembersDecide(ms, ms + [(k, v)]);
  }

  /** Whether a book is valid depends on its six named members alone. */
  lemma BookMembersDecide(a: seq<(string, Json)>, b: seq<(string, Json)>)
    requires Get(a, "name") == Get(b, "name") && Get(a, "description") == Get(b, "description")
    requires Get(a, "sortOrder") == Get(b, "sortOrder") && Get(a, "variables") == Get(b, "variables")
    requires Get(a, "chapters") == Get(b, "chapters") && Get(a, "modules") == Get(b, "modules")
    ensures ValidBook(Obj(a)) == ValidBook(Obj(b))
  {
  }

  lemma ExtraMemberInChapter(ms: seq<(string, Json)>, k: string, v: Json)
    requires k !in {"name", "variables", "pages", "lessons"}
    ensures ValidChapter(Obj(ms)) ==> ValidChapter(Obj(ms + [(k, v)]))
  {
    GetAppendOther(ms, k, v, "name");
    GetAppendOther(ms, k, v, "variables");
    GetAppendOther(ms, k, v, "pages");
    GetAppendOther(ms, k, v, "lessons");
  }

  lemma ExtraMemberInPage(ms: seq<(string, Json)>, k: string, v: Json)
    requires k !in {"name", "shortName", "variables", "file", "required"}
    ensures ValidPage(Obj(ms)) ==> ValidPage(Obj(ms + [(k, v)]))
  {
    GetAppendOther(ms, k, v, "name");
    GetAppendOther(ms, k, v, "shortName");
    GetAppendOther(ms, k, v, "variables");
    GetAppendOther(ms, k, v, "file");
    GetAppendOther(ms, k, v, "required");
  }

  lemma {:induction false} GetAppendOther(ms: seq<(string, Json)>, k: string, v: Json, key: string)
    requires key != k
    ensures Get(ms + [(k, v)], key) == Get(ms, key)
  {
    if ms != [] {
      assert (ms + [(k, v)])[1..] == ms[1..] + [(k, v)];
      GetAppendOther(ms[1..], k, v, key);
    }
  }

  /** A book with a name, a sort order and neither `chapters` nor `modules` is valid. */
  lemma PlainBookValid()
    ensures ValidBook(Obj([("name", Str("Intro")), ("sortOrder", Int(1))]))
  {
  }

  /** A chapter needs no member at all. */
  lemma EmptyChapterValid()
    ensures Satisfies(Obj([]), ChapterSchema)
  {
    ChapterAgrees(Obj([]));
  }

  /** A book with both `chapters` and `modules` is not valid. */
  lemma ChaptersAndModulesRejected()
    ensures !ValidBook(Obj([("name", Str("Intro")), ("sortOrder", Int(1)), ("chapters", Arr([])), ("modules", Arr([]))]))
  {
  }

  /** A book without a name is not valid. */
  lemma NamelessBookRejected()
    ensures !ValidBook(Obj([("sortOrder", Int(1))]))
  {
  }

  /** A book whose sort order is a string is not valid. */
  lemma TextSortOrderRejected()
    ensures !ValidBook(Obj([("name", Str("Intro")), ("sortOrder", Str("first"))]))
  {
  }
}
