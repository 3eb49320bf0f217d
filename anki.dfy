/** The flashcard builder of the study tools (`generar_mazo_anki` in
    tools.py): for each PDF long enough, it asks the language model for
    cards, and turns the items of the JSON reply that hold a question and an
    answer into notes of one deck. Reading a PDF (`read`), the model's reply
    already parsed as JSON (`generate`) and `html.escape` (`escape`) are
    parameters. */
module Anki {
  import opened Results
  import opened Strings

  /** A parsed JSON value, as `json.loads` gives it. */
  datatype Json =
    | JNull
    | JBool(b: bool)
    | JNumber(x: real)
    | JString(s: string)
    | JArray(items: seq<Json>)
    | JObject(fields: map<string, Json>)

  /** One note of the deck: its "Pregunta" and "Respuesta" fields. */
  datatype Note = Note(question: string, answer: string)

  const QuestionKey := "pregunta"
  const AnswerKey := "respuesta"
  const DeckTitle := "Repaso Examen (IA)"
  const OutputFile := "mazo_completo.apkg"
  /** Texts shorter than this are not sent to the model. */
  const MinTextLength: nat := 50
  /** At most this many characters of a text are sent to the model. */
  const MaxPromptText: nat := 30000

  // ---------------------------------------------------------------------
  // One item of the reply

  /** Python's `key in item`: key membership for a dict, element equality
      for a list, substring for a string; `None` where Python raises
      `TypeError` (numbers, booleans, null). */
  function Has(item: Json, key: string): (r: Option<bool>)
    ensures r.Some? <==> (item.JObject? || item.JArray? || item.JString?)
  {
    match item
    case JObject(fields) => Some(key in fields)
    case JArray(items) => Some(JString(key) in items)
    case JString(s) => Some(Contains(s, key))
    case _ => None
  }

  /** The item passes the test `'pregunta' in t and 'respuesta' in t`. */
  predicate HasBoth(item: Json)
  {
    Has(item, QuestionKey) == Some(true) && Has(item, AnswerKey) == Some(true)
  }

  /** The item is a dict whose question and answer are strings. */
  predicate StringPair(item: Json)
  {
    && item.JObject?
    && QuestionKey in item.fields && item.fields[QuestionKey].JString?
    && AnswerKey in item.fields && item.fields[AnswerKey].JString?
  }

  /** What the loop body does with one item: nothing, add a note, or raise
      (the exception leaves the loop and is caught per file). */
  datatype Step = Skip | Emit(note: Note) | Raise

  /** One iteration of `for t in data`. The test raises on items that do
      not support `in`; indexing raises on a list or a string that passed
      the test, and `html.escape` raises on a value that is not a string. */
  function Classify(item: Json, escape: string -> string): (r: Step)
    ensures r.Emit? <==> HasBoth(item) && StringPair(item)
    ensures r.Raise? <==> Has(item, QuestionKey).None? || (HasBoth(item) && !StringPair(item))
    ensures r.Emit? ==>
      r.note == Note(escape(item.fields[QuestionKey].s), escape(item.fields[AnswerKey].s))
  {
    match Has(item, QuestionKey)
    case None => Raise
    case Some(hasQuestion) =>
      if !hasQuestion || Has(item, AnswerKey) != Some(true) then Skip
      else if StringPair(item) then
        Emit(Note(escape(item.fields[QuestionKey].s), escape(item.fields[AnswerKey].s)))
      else Raise
  }

  // ---------------------------------------------------------------------
  // The items of one reply

  /** The notes of every item that yields one, in order (what the loop would
      add if nothing raised). */
  function Kept(items: seq<Json>, escape: string -> string): (notes: seq<Note>)
    ensures |notes| <= |items|
  {
    if items == [] then []
    else
      var init := Kept(items[..|items| - 1], escape);
      match Classify(items[|items| - 1], escape)
      case Emit(n) => init + [n]
      case _ => init
  }

  /** The position of the first item that raises, or the number of items
      when none does. */
  function FirstRaise(items: seq<Json>, escape: string -> string): (i: nat)
    ensures i <= |items|
    ensures forall k :: 0 <= k < i ==> !Classify(items[k], escape).Raise?
    ensures i < |items| ==> Classify(items[i], escape).Raise?
    decreases |items|
  {
    if items == [] then 0
    else if Classify(items[0], escape).Raise? then 0
    else 1 + FirstRaise(items[1..], escape)
  }

  /** The first raising position is the only one with no raise before it. */
  lemma {:induction false} FirstRaiseUnique(items: seq<Json>, escape: string -> string, i: nat)
    requires i <= |items|
    requires forall k :: 0 <= k < i ==> !Classify(items[k], escape).Raise?
    requires i < |items| ==> Classify(items[i], escape).Raise?
    ensures FirstRaise(items, escape) == i
    decreases |items|
  {
    if items != [] && !Classify(items[0], escape).Raise? {
      forall k | 0 <= k < i - 1 ensures !Classify(items[1..][k], escape).Raise? {
        assert items[1..][k] == items[k + 1];
      }
      FirstRaiseUnique(items[1..], escape, i - 1);
    }
  }

  /** The notes one reply adds to the deck: those of the items before the
      first one that raises. */
  function CardNotes(items: seq<Json>, escape: string -> string): seq<Note>
  {
    Kept(items[..FirstRaise(items, escape)], escape)
  }

  /** Counting the kept notes: one per item that passes the test and holds
      two strings. */
  function CountPairs(items: seq<Json>): (n: nat)
    ensures n <= |items|
  {
    if items == [] then 0
    else CountPairs(items[..|items| - 1]) + (if HasBoth(items[|items| - 1]) && StringPair(items[|items| - 1]) then 1 else 0)
  }

  /** Every kept note is the escaped question and answer of an item that
      passes the test, and there is one per such item. */
  lemma {:induction false} KeptFromItems(items: seq<Json>, escape: string -> string)
    ensures |Kept(items, escape)| == CountPairs(items)
    ensures forall n :: n in Kept(items, escape) ==>
      exists k :: 0 <= k < |items| && HasBoth(items[k]) && Classify(items[k], escape) == Emit(n)
    decreases |items|
  {
    if items != [] {
      var init := items[..|items| - 1];
      KeptFromItems(init, escape);
      forall n | n in Kept(items, escape)
        ensures exists k :: 0 <= k < |items| && HasBoth(items[k]) && Classify(items[k], escape) == Emit(n)
      {
        if n in Kept(init, escape) {
          var k :| 0 <= k < |init| && HasBoth(init[k]) && Classify(init[k], escape) == Emit(n);
          assert items[k] == init[k];
        } else {
          assert Classify(items[|items| - 1], escape) == Emit(n);
        }
      }
    }
  }

  /** When no item raises, every item that passes the test gives a note:
      `tarjetas_creadas` is the number of such items. */
  lemma CardsWithoutRaise(items: seq<Json>, escape: string -> string)
    requires forall k :: 0 <= k < |items| ==> !Classify(items[k], escape).Raise?
    ensures CardNotes(items, escape) == Kept(items, escape)
    ensures |CardNotes(items, escape)| == CountPairs(items)
  {
    FirstRaiseUnique(items, escape, |items|);
    assert items[..|items|] == items;
    KeptFromItems(items, escape);
  }

  /** The deck being built: `genanki.Deck`, holding its notes in the order
      they were added. */
  class Deck {
    const title: string
    var notes: seq<Note>

    constructor (title: string)
      ensures this.title == title && notes == []
    {
      this.title := title;
      notes := [];
    }

    /** `mazo.add_note(...)`. */
    method AddNote(n: Note)
      modifies this
      ensures notes == old(notes) + [n]
    {
      notes := notes + [n];
    }
  }

  /** Adding one item's note extends the kept notes of a prefix. */
  lemma KeptStep(items: seq<Json>, i: nat, escape: string -> string)
    requires i < |items|
    ensures Kept(items[..i + 1], escape) ==
      Kept(items[..i], escape) + (match Classify(items[i], escape) case Emit(n) => [n] case _ => [])
  {
    assert items[..i + 1][..i] == items[..i];
  }

  /** The inner loop of `generar_mazo_anki` over the items of a list reply:
      adds the note of each item that yields one, stopping at the first item
      that raises. Returns `tarjetas_creadas` and whether it raised. */
  method AddCards(deck: Deck, items: seq<Json>, escape: string -> string) returns (created: nat, raised: bool)
    modifies deck
    ensures deck.notes == old(deck.notes) + CardNotes(items, escape)
    ensures created == |CardNotes(items, escape)|
    ensures raised <==> FirstRaise(items, escape) < |items|
  {
    created := 0;
    raised := false;
    var i := 0;
    while i < |items|
      invariant 0 <= i <= |items|
      invariant forall k :: 0 <= k < i ==> !Classify(items[k], escape).Raise?
      invariant deck.notes == old(deck.notes) + Kept(items[..i], escape)
      invariant created == |Kept(items[..i], escape)|
    {
      KeptStep(items, i, escape);
      var step := Classify(items[i], escape);
      if step.Raise? {
        raised := true;
        break;
      }
      if step.Emit? {
        deck.AddNote(step.note);
        created := created + 1;
      }
      i := i + 1;
    }
    FirstRaiseUnique(items, escape, i);
  }

  // ---------------------------------------------------------------------
  // The request sent for one file

  /** The text of the request before and after the number of cards. */
  const PromptHead := "\n        Actúa como profesor. Analiza el texto y genera "
  const PromptTail := " tarjetas Anki.\n        Prioriza conceptos clave para examen.\n        Responde SOLO JSON válido: [{'pregunta': '...', 'respuesta': '...'}]\n        "
  /** What separates the instructions from the text. */
  const TextMarker := "\nTEXTO:\n"

  /** The instructions that open every request, for `count` cards. */
  function Instructions(count: int): string
  {
    PromptHead + IntToString(count) + PromptTail
  }

  /** `texto[:30000]`. */
  function Truncated(text: string): (r: string)
    ensures |r| <= MaxPromptText && r <= text
    ensures |text| <= MaxPromptText ==> r == text
    ensures |text| > MaxPromptText ==> |r| == MaxPromptText
  {
    if |text| <= MaxPromptText then text else text[..MaxPromptText]
  }

  /** The request for the cards of one text. */
  function Request(count: int, text: string): string
  {
    Instructions(count) + TextMarker + Truncated(text)
  }

  /** The request carries the instructions and the text cut to 30000
      characters: two texts that agree on their first 30000 characters give
      the same request, and a short text is sent whole. */
  lemma RequestTruncates(count: int, t1: string, t2: string)
    ensures |Request(count, t1)| <= |Instructions(count)| + |TextMarker| + MaxPromptText
    ensures |t1| <= MaxPromptText ==> Request(count, t1) == Instructions(count) + TextMarker + t1
    ensures |t1| >= MaxPromptText && |t2| >= MaxPromptText && t1[..MaxPromptText] == t2[..MaxPromptText] ==>
      Request(count, t1) == Request(count, t2)
  {
  }

  // ---------------------------------------------------------------------
  // The whole deck

  /** What the model's reply for one text adds: the card notes of a list
      reply; nothing for any other JSON value, or when the call or the
      parsing failed. */
  function ReplyNotes(reply: Result<Json, string>, escape: string -> string): (notes: seq<Note>)
    ensures !(reply.Ok? && reply.value.JArray?) ==> notes == []
  {
    match reply
    case Ok(JArray(items)) => CardNotes(items, escape)
    case _ => []
  }

  /** The text of a PDF is long enough to ask for cards. */
  predicate LongEnough(text: string)
  {
    |text| >= MinTextLength
  }

  /** The notes the file at `path` adds. */
  function FileNotes(path: string, count: int, read: string -> string,
                     generate: string -> Result<Json, string>, escape: string -> string): seq<Note>
  {
    var text := read(path);
    if LongEnough(text) then ReplyNotes(generate(Request(count, text)), escape) else []
  }

  /** The notes of all the files, in the order of the paths. */
  function DeckNotes(paths: seq<string>, count: int, read: string -> string,
                     generate: string -> Result<Json, string>, escape: string -> string): seq<Note>
  {
    if paths == [] then []
    else
      DeckNotes(paths[..|paths| - 1], count, read, generate, escape) +
        FileNotes(paths[|paths| - 1], count, read, generate, escape)
  }

  /** The requests sent to the model, one per long enough file, in order. */
  function Requests(paths: seq<string>, count: int, read: string -> string): (rs: seq<string>)
    ensures |rs| <= |paths|
  {
    if paths == [] then []
    else
      var text := read(paths[|paths| - 1]);
      Requests(paths[..|paths| - 1], count, read) + (if LongEnough(text) then [Request(count, text)] else [])
  }

  /** Files whose text is shorter than 50 characters (an unreadable file
      gives "") ask nothing and add nothing. */
  lemma {:induction false} ShortTextsAskNothing(paths: seq<string>, count: int, read: string -> string,
                                                generate: string -> Result<Json, string>, escape: string -> string)
    requires forall j :: 0 <= j < |paths| ==> |read(paths[j])| < MinTextLength
    ensures Requests(paths, count, read) == []
    ensures DeckNotes(paths, count, read, generate, escape) == []
    decreases |paths|
  {
    if paths != [] {
      var init := paths[..|paths| - 1];
      assert forall j :: 0 <= j < |init| ==> init[j] == paths[j];
      ShortTextsAskNothing(init, count, read, generate, escape);
    }
  }

  /** Each request is sent for a text of at least 50 characters and holds
      at most 30000 of them. */
  lemma {:induction false} RequestsAreOfLongTexts(paths: seq<string>, count: int, read: string -> string, k: nat)
    requires k < |Requests(paths, count, read)|
    ensures exists j :: (0 <= j < |paths| && LongEnough(read(paths[j])) &&
      Requests(paths, count, read)[k] == Request(count, read(paths[j])))
    decreases |paths|
  {
    var init := paths[..|paths| - 1];
    var rs := Requests(init, count, read);
    var last := read(paths[|paths| - 1]);
    var extra := if LongEnough(last) then [Request(count, last)] else [];
    assert Requests(paths, count, read) == rs + extra;
    if k < |rs| {
      RequestsAreOfLongTexts(init, count, read, k);
      var j :| 0 <= j < |init| && LongEnough(read(init[j])) && rs[k] == Request(count, read(init[j]));
      assert paths[j] == init[j];
      assert Requests(paths, count, read)[k] == rs[k];
    } else {
      assert LongEnough(last) && Requests(paths, count, read)[k] == extra[0];
    }
  }


  /** One more file extends the notes and the requests by its own. */
  lemma DeckStep(paths: seq<string>, i: nat, count: int, read: string -> string,
                 generate: string -> Result<Json, string>, escape: string -> string)
    requires i < |paths|
    ensures DeckNotes(paths[..i + 1], count, read, generate, escape) ==
      DeckNotes(paths[..i], count, read, generate, escape) + FileNotes(paths[i], count, read, generate, escape)
    ensures Requests(paths[..i + 1], count, read) ==
      Requests(paths[..i], count, read) + (if LongEnough(read(paths[i])) then [Request(count, read(paths[i]))] else [])
  {
    assert paths[..i + 1][..i] == paths[..i];
  }

  /** `generar_mazo_anki(paths, count)`: builds one deck from all the
      files, in order, and names the package file it writes. `requests`
      records the requests sent to the model. */
  method MakeDeck(paths: seq<string>, count: int, read: string -> string,
                  generate: string -> Result<Json, string>, escape: string -> string)
    returns (file: string, deck: Deck, ghost requests: seq<string>)
    ensures fresh(deck)
    ensures file == OutputFile && deck.title == DeckTitle
    ensures deck.notes == DeckNotes(paths, count, read, generate, escape)
    ensures requests == Requests(paths, count, read)
  {
    deck := new Deck(DeckTitle);
    requests := [];
    for i := 0 to |paths|
      invariant deck.notes == DeckNotes(paths[..i], count, read, generate, escape)
      invariant requests == Requests(paths[..i], count, read)
    {
      DeckStep(paths, i, count, read, generate, escape);
      var text := read(paths[i]);
      ghost var before := deck.notes;
      if LongEnough(text) {
        var prompt := Request(count, text);
        requests := requests + [prompt];
        var reply := generate(prompt);
        if reply.Ok? && reply.value.JArray? {
          var created, raised := AddCards(deck, reply.value.items, escape);
          assert deck.notes == before + FileNotes(paths[i], count, read, generate, escape);
        } else {
          assert FileNotes(paths[i], count, read, generate, escape) == [];
          assert deck.notes == before + [];
        }
      } else {
        assert deck.notes == before + [];
      }
    }
    assert paths[..|paths|] == paths;
    file := OutputFile;
  }
}
