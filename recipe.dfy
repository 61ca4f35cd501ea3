/** The offline recipe suggestion and the parsing of the ingredient field
    that feeds it. */
module Recipe {
  import opened Common
  import Text

  datatype Suggestion = Suggestion(title: string, summary: string, ingredients: seq<string>, steps: seq<string>)

  const PantryTitle: string := "Quick Pantry Surprise"

  const OfflineSummary: string := "A speedy, flexible recipe generated offline when no API key is set."

  /** The three fixed steps. The second is kept with the two characters
      U+221A U+00A9 that stand in the source where "Saute" carries an
      accent. */
  const OfflineSteps: seq<string> := [
    "Prep all ingredients and heat a pan.",
    "Saut\U{221A}\U{00A9} aromatics, add mains, and season to taste.",
    "Simmer until flavors meld. Serve hot."
  ]

  /** A cleaned item: non-empty and without surrounding whitespace, so that
      stripping it changes nothing (`Text.StripKeeps`). */
  predicate IsClean(item: string) {
    item != [] && !Text.IsSpace(item[0]) && !Text.IsSpace(item[|item| - 1])
  }

  /** What the comprehension keeps of one item: its strip, when non-empty. */
  function CleanOne(item: string): (r: seq<string>)
    ensures |r| <= 1
    ensures forall i :: 0 <= i < |r| ==> IsClean(r[i])
  {
    Text.StripShape(item);
    var s := Text.Strip(item);
    if s != [] then [s] else []
  }

  /** `[i.strip() for i in items if i.strip()]` */
  function Cleaned(items: seq<string>): (r: seq<string>)
    ensures |r| <= |items|
    ensures forall i :: 0 <= i < |r| ==> IsClean(r[i])
  {
    if items == [] then [] else CleanOne(items[0]) + Cleaned(items[1..])
  }

  /** Cleaning keeps the original order: it works item by item across a
      concatenation. */
  lemma {:induction false} CleanedAppend(a: seq<string>, b: seq<string>)
    ensures Cleaned(a + b) == Cleaned(a) + Cleaned(b)
    decreases |a|
  {
    if a == [] {
      assert a + b == b;
    } else {
      calc {
        Cleaned(a + b);
        CleanOne((a + b)[0]) + Cleaned((a + b)[1..]);
        { assert (a + b)[0] == a[0] && (a + b)[1..] == a[1..] + b; }
        CleanOne(a[0]) + Cleaned(a[1..] + b);
        { CleanedAppend(a[1..], b); }
        CleanOne(a[0]) + (Cleaned(a[1..]) + Cleaned(b));
        (CleanOne(a[0]) + Cleaned(a[1..])) + Cleaned(b);
      }
    }
  }

  /** A list that is already clean is left as it is; in particular cleaning
      twice is cleaning once. */
  lemma {:induction false} CleanedKeepsClean(items: seq<string>)
    requires forall i :: 0 <= i < |items| ==> IsClean(items[i])
    ensures Cleaned(items) == items
    decreases |items|
  {
    if items != [] {
      CleanedKeepsClean(items[1..]);
      Text.StripKeeps(items[0]);
      assert [items[0]] + items[1..] == items;
    }
  }

  /** A character absent from every item is absent from every cleaned item. */
  lemma {:induction false} CleanedAvoids(items: seq<string>, c: char)
    requires forall i :: 0 <= i < |items| ==> c !in items[i]
    ensures forall i :: 0 <= i < |Cleaned(items)| ==> c !in Cleaned(items)[i]
    decreases |items|
  {
    if items != [] {
      CleanedAvoids(items[1..], c);
      Text.StripShape(items[0]);
      assert forall i :: 0 <= i < |CleanOne(items[0])| ==> c !in CleanOne(items[0])[i];
    }
  }

  /** The ingredient field of the suggestion form:
      `[s.strip() for s in ingredients.split(",") if s.strip()]`. */
  function ParseIngredients(raw: string): (r: seq<string>)
    ensures forall i :: 0 <= i < |r| ==> IsClean(r[i]) && ',' !in r[i]
  {
    CleanedAvoids(Text.Split(raw, ','), ',');
    Cleaned(Text.Split(raw, ','))
  }

  /** Writing clean, comma-free ingredients as a comma-separated field and
      parsing the field gives back the same list. */
  lemma ParseIngredientsRoundTrip(items: seq<string>)
    requires forall i :: 0 <= i < |items| ==> IsClean(items[i]) && ',' !in items[i]
    ensures ParseIngredients(Text.Join(items, ",")) == items
  {
    if items == [] {
      assert Text.Split([], ',') == [[]];
    } else {
      Text.SplitJoin(items, ',');
      CleanedKeepsClean(items);
    }
  }

  /** `offline_recipe`: a title from the first (up to) two items as given,
      a fixed summary and procedure, and the cleaned items. */
  function OfflineRecipe(items: seq<string>): (s: Suggestion)
    ensures |s.steps| == 3
    ensures s.ingredients == Cleaned(items)
  {
    var title := if items == [] then PantryTitle
                 else "Quick " + Text.Join(items[..if |items| < 2 then |items| else 2], " & ") + " Surprise";
    Suggestion(title, OfflineSummary, Cleaned(items), OfflineSteps)
  }

  /** The title names the first one or two items in order, exactly as
      given (so "egg" stays lower-case), or is the pantry title for an
      empty list. */
  lemma OfflineTitle(items: seq<string>)
    ensures items == [] ==> OfflineRecipe(items).title == PantryTitle
    ensures |items| == 1 ==> OfflineRecipe(items).title == "Quick " + items[0] + " Surprise"
    ensures |items| >= 2 ==> OfflineRecipe(items).title == "Quick " + items[0] + " & " + items[1] + " Surprise"
  {
    if |items| == 1 {
      assert items[..1] == items;
    } else if |items| >= 2 {
      assert items[..2] == [items[0], items[1]];
      Text.JoinPair(items[0], items[1], " & ");
    }
  }

  /** From the form, the offline suggestion lists exactly the parsed items. */
  lemma OfflineEchoesParsedIngredients(raw: string)
    ensures OfflineRecipe(ParseIngredients(raw)).ingredients == ParseIngredients(raw)
  {
    CleanedKeepsClean(ParseIngredients(raw));
  }

  /** `openai_recipe`: the provider's parsed reply when there is one; with
      no key, no client, a failed call or an unparseable reply (all
      `None` here) the offline recipe. */
  function Suggest(items: seq<string>, reply: Option<Suggestion>): (s: Suggestion)
    ensures reply.None? ==> s == OfflineRecipe(items)
  {
    reply.GetOr(OfflineRecipe(items))
  }
}
