/**
 * `generatePDF` (trainer.js): the title at the top of the first page, then
 * for each card its numbered question, the student's answer and the correct
 * answer, placed by a vertical cursor that starts a new page when it has
 * passed 270, and a file named after the title.
 *
 * The jsPDF document is the value the method builds: the number of pages and
 * the list of text entries, each with its page, position, lines, font size
 * and colour. `splitTextToSize(question, 180)` and the `innerText` of the
 * problem's HTML are library and browser behaviour and are parameters.
 */
module Pdf {
  import opened Common
  import opened Topic
  import opened Text
  import Round

  datatype Color = Color(red: nat, green: nat, blue: nat)

  const Black := Color(0, 0, 0)
  /** The colour of the student's answer. */
  const Grey := Color(100, 100, 100)
  /** The colour of the correct answer. */
  const Green := Color(0, 100, 0)

  /** One `doc.text` call: where it writes, what, and how. */
  datatype Entry = Entry(page: nat, x: int, y: int, lines: seq<string>, fontSize: nat, color: Color, centered: bool)

  /** What `doc.save` writes: the pages, the text on them and the file name. */
  datatype Document = Document(pages: nat, entries: seq<Entry>, fileName: string)

  /** The page being written and the cursor `y` on it. */
  datatype Cursor = Cursor(page: nat, y: int)

  /** The three texts printed for one card. */
  datatype PrintedTask = PrintedTask(question: seq<string>, userAnswerLine: string, answerLine: string)

  /** The question `${index + 1}. ${questionText}`. */
  function QuestionText(index: nat, text: string): string {
    NatToString(index + 1) + ". " + text
  }

  /** The question of card `index` starts with the number index + 1, then ". ", then the problem text. */
  lemma {:induction false} QuestionNumbered(index: nat, text: string)
    ensures var q, k := QuestionText(index, text), |NatToString(index + 1)|;
      && k + 2 <= |q|
      && IsCanonical(q[..k]) && DigitsValue(q[..k]) == index + 1
      && q[k..k + 2] == ". " && q[k + 2..] == text
  {
    var n := NatToString(index + 1);
    var q := QuestionText(index, text);
    NatToStringDigits(index + 1);
    assert q[..|n|] == n;
    assert q[|n| + 2..] == text;
  }

  /** Different cards or different problem texts never print the same question. */
  lemma {:induction false} QuestionTextInjective(i: nat, a: string, j: nat, b: string)
    requires QuestionText(i, a) == QuestionText(j, b)
    ensures i == j && a == b
  {
    NatToStringDigits(i + 1);
    NatToStringDigits(j + 1);
    JoinedDigits(NatToString(i + 1), a, NatToString(j + 1), b, ". ");
  }

  const UserAnswerLabel := "Ответ ученика: "
  /** The placeholder for an empty answer. */
  const NoAnswer := "нет ответа"
  const AnswerLabel := "Правильный ответ: "

  /** `Ответ ученика: ${userAnswerText || 'нет ответа'}` for the trimmed input. */
  function UserAnswerLine(input: string): string {
    UserAnswerLabel + TextOr(Some(Trim(input)), NoAnswer)
  }

  /**
   * An input of nothing but whitespace prints the placeholder 'нет ответа';
   * any other input prints its trimmed, nonempty text.
   */
  lemma {:induction false} UserAnswerLineSpec(input: string)
    ensures AllWhitespace(input) ==> UserAnswerLine(input) == UserAnswerLabel + NoAnswer
    ensures !AllWhitespace(input) ==> Trim(input) != [] && UserAnswerLine(input) == UserAnswerLabel + Trim(input)
  {
    TrimEmptyIff(input);
  }

  /** `Правильный ответ: ${correctAnswerText}`: the label, then the answer text unchanged. */
  function AnswerLine(correctAnswerText: string): (r: string)
    ensures |r| == |AnswerLabel| + |correctAnswerText|
    ensures r[..|AnswerLabel|] == AnswerLabel && r[|AnswerLabel|..] == correctAnswerText
  {
    AnswerLabel + correctAnswerText
  }

  /** `title.replace(/ /g, '_')`: every space, and only a space, becomes an underscore. */
  function ReplaceSpaces(s: string): (r: string)
    ensures |r| == |s|
  {
    if s == [] then []
    else ReplaceSpaces(s[..|s| - 1]) + [if s[|s| - 1] == ' ' then '_' else s[|s| - 1]]
  }

  lemma {:induction false} ReplaceSpacesSpec(s: string)
    ensures forall i | 0 <= i < |s| :: ReplaceSpaces(s)[i] == if s[i] == ' ' then '_' else s[i]
  {
    if s != [] {
      ReplaceSpacesSpec(s[..|s| - 1]);
    }
  }

  /** The name `doc.save` is given. */
  function FileName(title: string): string {
    ReplaceSpaces(title) + ".pdf"
  }

  /**
   * The file name is the title with each space turned into '_' and every
   * other character kept, followed by ".pdf"; it contains no space.
   */
  lemma {:induction false} FileNameSpec(title: string)
    ensures var f := FileName(title);
      && |f| == |title| + 4
      && f[|title|..] == ".pdf"
      && (forall i | 0 <= i < |title| :: f[i] == if title[i] == ' ' then '_' else title[i])
      && forall i | 0 <= i < |f| :: f[i] != ' '
  {
    var f := FileName(title);
    ReplaceSpacesSpec(title);
    forall i | 0 <= i < |title| ensures f[i] == ReplaceSpaces(title)[i] {
    }
  }

  /**
   * The texts printed for card `index`. The correct answer is asked of
   * `isAnswerCorrect` with an empty answer, so it does not depend on what
   * the student typed.
   */
  function Printed<T, V>(
    index: nat, card: Round.TaskCard<T, V>,
    split: string -> seq<string>, innerText: string -> string, isAnswerCorrect: (string, T, V) -> Verdict)
    : PrintedTask
  {
    var question := QuestionText(index, innerText(card.generatedTask.problemText));
    var verdict := isAnswerCorrect("", card.originalTask, card.generatedTask.variables);
    PrintedTask(split(question), UserAnswerLine(card.input), AnswerLine(verdict.correctAnswerText))
  }

  function PrintedTasks<T, V>(
    cards: seq<Round.TaskCard<T, V>>,
    split: string -> seq<string>, innerText: string -> string, isAnswerCorrect: (string, T, V) -> Verdict)
    : (r: seq<PrintedTask>)
    ensures |r| == |cards|
  {
    seq(|cards|, k requires 0 <= k < |cards| => Printed(k, cards[k], split, innerText, isAnswerCorrect))
  }

  /** How far one card moves the cursor: its question lines at 5 each, then 5, 7 and 15. */
  function Height(item: PrintedTask): nat {
    5 * |item.question| + 27
  }

  /** The page break before a card: past 270, a new page with the cursor at 20. */
  function Place(c: Cursor): Cursor {
    if c.y > 270 then Cursor(c.page + 1, 20) else c
  }

  /** The cursor after the cards `items`, starting from y = 40 on page 1. */
  function CursorAfter(items: seq<PrintedTask>): Cursor {
    if items == [] then Cursor(1, 40)
    else
      var top := Place(CursorAfter(items[..|items| - 1]));
      Cursor(top.page, top.y + Height(items[|items| - 1]))
  }

  /** Where each card starts: its page and the cursor after the page break check. */
  function Tops(items: seq<PrintedTask>): (r: seq<Cursor>)
    ensures |r| == |items|
  {
    if items == [] then []
    else Tops(items[..|items| - 1]) + [Place(CursorAfter(items[..|items| - 1]))]
  }

  /** The three entries of a card that starts at `top`. */
  function TaskEntries(top: Cursor, item: PrintedTask): seq<Entry> {
    var answerY := top.y + 5 * |item.question| + 5;
    [ Entry(top.page, 15, top.y, item.question, 12, Black, false),
      Entry(top.page, 15, answerY, [item.userAnswerLine], 12, Grey, false),
      Entry(top.page, 15, answerY + 7, [item.answerLine], 12, Green, false) ]
  }

  /** The entries of all cards, in order. */
  function Body(items: seq<PrintedTask>): (r: seq<Entry>)
    ensures |r| == 3 * |items|
  {
    if items == [] then []
    else
      var init := items[..|items| - 1];
      Body(init) + TaskEntries(Place(CursorAfter(init)), items[|items| - 1])
  }

  /** The title, in size 18, centred at (105, 20) on the first page. */
  function TitleEntry(title: string): Entry {
    Entry(1, 105, 20, [title], 18, Black, true)
  }

  /** The document for a title and the cards' printed texts. */
  function PdfOf(title: string, items: seq<PrintedTask>): Document {
    Document(CursorAfter(items).page, [TitleEntry(title)] + Body(items), FileName(title))
  }

  /**
   * The `forEach` callback for card `index`: the page break check, then the
   * question lines, the student's answer and the correct answer, each below
   * the previous one.
   */
  method PrintCard<T, V>(
    page: nat, y: int, index: nat, task: Round.TaskCard<T, V>,
    split: string -> seq<string>, innerText: string -> string, isAnswerCorrect: (string, T, V) -> Verdict)
    returns (page': nat, y': int, printed: seq<Entry>)
    ensures var top, item := Place(Cursor(page, y)), Printed(index, task, split, innerText, isAnswerCorrect);
      && printed == TaskEntries(top, item)
      && Cursor(page', y') == Cursor(top.page, top.y + Height(item))
  {
    page', y' := page, y;
    if y' > 270 {
      page', y' := page' + 1, 20;
    }
    var question := QuestionText(index, innerText(task.generatedTask.problemText));
    var verdict := isAnswerCorrect("", task.originalTask, task.generatedTask.variables);
    var userAnswerLine := UserAnswerLine(task.input);
    var answer := AnswerLine(verdict.correctAnswerText);
    var splitQuestion := split(question);
    printed := [Entry(page', 15, y', splitQuestion, 12, Black, false)];
    y' := y' + |splitQuestion| * 5 + 5;
    printed := printed + [Entry(page', 15, y', [userAnswerLine], 12, Grey, false)];
    y' := y' + 7;
    printed := printed + [Entry(page', 15, y', [answer], 12, Green, false)];
    y' := y' + 15;
  }

  /**
   * `generatePDF()`. With no title the source fails no later than
   * `title.replace`, possibly already at the title's `doc.text`, and saves
   * nothing, so no document results.
   */
  method GeneratePdf<T, V>(
    title: Option<string>, cards: seq<Round.TaskCard<T, V>>,
    split: string -> seq<string>, innerText: string -> string, isAnswerCorrect: (string, T, V) -> Verdict)
    returns (doc: Option<Document>)
    ensures doc.Some? <==> title.Some?
    ensures title.Some? ==> doc.value == PdfOf(title.value, PrintedTasks(cards, split, innerText, isAnswerCorrect))
  {
    if title.None? {
      return None;
    }
    ghost var items := PrintedTasks(cards, split, innerText, isAnswerCorrect);
    var entries := [TitleEntry(title.value)];
    var page, y := 1, 40;
    for index := 0 to |cards|
      invariant Cursor(page, y) == CursorAfter(items[..index])
      invariant entries == [TitleEntry(title.value)] + Body(items[..index])
    {
      assert items[index] == Printed(index, cards[index], split, innerText, isAnswerCorrect);
      var printed;
      page, y, printed := PrintCard(page, y, index, cards[index], split, innerText, isAnswerCorrect);
      BodyStep(items, index);
      entries := entries + printed;
    }
    assert items[..|cards|] == items;
    doc := Some(Document(page, entries, FileName(title.value)));
  }

  /** Extending the cards by one adds that card's entries at the cursor before it. */
  lemma {:induction false} BodyStep(items: seq<PrintedTask>, k: nat)
    requires k < |items|
    ensures var p := items[..k + 1];
      && Body(p) == Body(items[..k]) + TaskEntries(Place(CursorAfter(items[..k])), items[k])
      && var top := Place(CursorAfter(items[..k]));
         CursorAfter(p) == Cursor(top.page, top.y + Height(items[k]))
  {
    assert items[..k + 1][..k] == items[..k];
  }

  lemma {:induction false} CursorAfterBounds(items: seq<PrintedTask>)
    ensures CursorAfter(items).page >= 1 && CursorAfter(items).y >= 40
  {
    if items != [] {
      CursorAfterBounds(items[..|items| - 1]);
    }
  }

  /** Card k starts where the cursor stands after the cards before it, once the page break is applied. */
  lemma {:induction false} TopsIndex(items: seq<PrintedTask>, k: nat)
    requires k < |items|
    ensures Tops(items)[k] == Place(CursorAfter(items[..k]))
  {
    var init := items[..|items| - 1];
    if k < |init| {
      TopsIndex(init, k);
      assert init[..k] == items[..k];
    }
  }

  /**
   * The first card starts at y = 40 on page 1, and every card starts on a
   * page at a height between 20 and 270.
   */
  lemma {:induction false} LayoutStart(items: seq<PrintedTask>)
    ensures items != [] ==> Tops(items)[0] == Cursor(1, 40)
    ensures forall k | 0 <= k < |items| :: Tops(items)[k].page >= 1 && 20 <= Tops(items)[k].y <= 270
  {
    if items != [] {
      TopsIndex(items, 0);
    }
    forall k | 0 <= k < |items| ensures Tops(items)[k].page >= 1 && 20 <= Tops(items)[k].y <= 270 {
      TopsIndex(items, k);
      CursorAfterBounds(items[..k]);
    }
  }

  /**
   * Between consecutive cards: when the earlier card ends at or above 270
   * the next one starts right there on the same page, and otherwise on the
   * next page at 20.
   */
  lemma {:induction false} PageBreakRule(items: seq<PrintedTask>, k: nat)
    requires k + 1 < |items|
    ensures var a, b := Tops(items)[k], Tops(items)[k + 1];
      var bottom := a.y + Height(items[k]);
      && (bottom <= 270 ==> b == Cursor(a.page, bottom))
      && (bottom > 270 ==> b == Cursor(a.page + 1, 20))
  {
    TopsIndex(items, k);
    TopsIndex(items, k + 1);
    BodyStep(items, k);
  }

  /**
   * The page count is the page of the last card (1 with no cards): a page
   * is only added in front of a card.
   */
  lemma {:induction false} PageCount(title: string, items: seq<PrintedTask>)
    ensures items == [] ==> PdfOf(title, items).pages == 1
    ensures items != [] ==> PdfOf(title, items).pages == Tops(items)[|items| - 1].page
  {
    if items != [] {
      TopsIndex(items, |items| - 1);
    }
  }

  /**
   * After the title, the document holds three entries per card, in card
   * order: the question lines at the card's start, the student's answer
   * 5 per question line plus 5 below it, and the correct answer 7 lower
   * still, all on the card's page.
   */
  lemma {:induction false} EntriesPerCard(title: string, items: seq<PrintedTask>, k: nat)
    requires k < |items|
    ensures var d := PdfOf(title, items);
      && |d.entries| == 1 + 3 * |items|
      && d.entries[0] == TitleEntry(title)
      && d.entries[1 + 3 * k..4 + 3 * k] == TaskEntries(Tops(items)[k], items[k])
  {
    BodyIndex(items, k);
    var d := PdfOf(title, items);
    assert d.entries[1 + 3 * k..4 + 3 * k] == Body(items)[3 * k..3 * k + 3];
  }

  lemma {:induction false} BodyIndex(items: seq<PrintedTask>, k: nat)
    requires k < |items|
    ensures Body(items)[3 * k..3 * k + 3] == TaskEntries(Tops(items)[k], items[k])
  {
    var init := items[..|items| - 1];
    TopsIndex(items, k);
    if k < |init| {
      BodyIndex(init, k);
      TopsIndex(init, k);
      assert init[..k] == items[..k];
      assert Body(items)[3 * k..3 * k + 3] == Body(init)[3 * k..3 * k + 3];
    } else {
      assert Body(items)[3 * k..3 * k + 3] == TaskEntries(Place(CursorAfter(init)), items[k]);
    }
  }

  /** The correct answer printed for a card does not depend on what the student typed. */
  lemma {:induction false} CorrectAnswerIgnoresInput<T, V>(
    index: nat, card: Round.TaskCard<T, V>, typed: string,
    split: string -> seq<string>, innerText: string -> string, isAnswerCorrect: (string, T, V) -> Verdict)
    ensures Printed(index, card.(input := typed), split, innerText, isAnswerCorrect).answerLine
         == Printed(index, card, split, innerText, isAnswerCorrect).answerLine
  {
  }
}
