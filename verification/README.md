# Trainer core in Dafny

A model of the logic in `trainer.js`, the browser quiz trainer. The page loads a topic module (settings, a task bank and an answer checker). It then runs timed rounds: sample one task per task type, show a card for each, count down, grade the answers, and export the round to a PDF. This project models the following and proves properties about them:

- **`formatTime`** (`time_format.dfy`, on top of `text.dfy`). JavaScript's `String`, `padStart`, `Math.floor` and truncating `%` are written out, so negative counts are covered too. A parser reads the display back.
- **`pickTasks`** (`sampler.dfy`). The `reduce` into type groups, the shuffle of the types, the `slice`, and one pick per group. The randomness is a parameter:
  - The comparator shuffle is an arbitrary permutation chosen by a sequence of choices, and every permutation can be chosen.
  - `Math.random()` for the i-th kept type is a real `draw(i)` in [0, 1).
- **The page state and its updates** (`round.dfy`). The `state` record, the countdown, the intervals, the buttons and the results panel are the fields of a class `Trainer`. Its methods are:
  - `StartTimer`;
  - `Tick`, the interval callback;
  - `Render`, with the tasks `pickTasks` returned;
  - `Check`, which is `checkAnswers`;
  - `TypeAnswer`, the student typing into a card's input box, so that a check can see answers.

  The texts the page shows (title, subtitle, timer, score line) are functions of that state.
- **`generatePDF`** (`pdf.dfy`). The vertical cursor and page breaks, the three lines printed per card, and the file name. The document is the value the method builds: page count, text entries and file name.

`topic.dfy` holds the topic module's types and JavaScript's `x || d` defaults. `isAnswerCorrect`, `task.generate`, `splitTextToSize` and the `innerText` of the problem's HTML are parameters.

The types are ordered by `sort` with a random comparator. That is neither a Fisher–Yates shuffle nor uniform, so the model lets the order be any permutation and claims nothing about probabilities.

## Model

| member | source | states |
|---|---|---|
| Text.NatToStringDigits | trainer.js:57 | `String(n)` is a canonical digit string (no leading zero) that denotes n |
| Text.NatToStringOfDigitsValue | trainer.js:57 | every canonical digit string is what `String` prints for the number it denotes |
| Text.PadStartShape | trainer.js:57-58 | `padStart` puts fill characters in front and keeps the string as the suffix |
| Text.PadStartValue | trainer.js:57-58 | zero-padding a digit string keeps the number it denotes |
| Text.TrimStartSpec | trainer.js:135 | `trimStart` keeps the longest suffix not starting with whitespace and drops only whitespace |
| Text.TrimEndSpec | trainer.js:135 | `trimEnd` keeps the longest prefix not ending with whitespace and drops only whitespace |
| Text.TrimIsInfix | trainer.js:135 | `trim` keeps a contiguous piece of the input with no whitespace at either end and drops only whitespace |
| Text.TrimEmptyIff | trainer.js:184-185 | the trimmed text is empty if and only if the input is all whitespace |
| Text.TrimIdempotent | trainer.js:135 | trimming twice is trimming once |
| Text.JoinedDigits | trainer.js:147 | two digit strings joined by a separator that starts with a non-digit split back uniquely |
| TimeFormat.JsRemainder | trainer.js:58 | JavaScript's `%`: equal to the mathematical remainder for n >= 0; in general of the dividend's sign, below the divisor in magnitude, and differing from the dividend by a multiple of the divisor, which fixes its value |
| TimeFormat.FieldDigits | trainer.js:57-58 | a padded field of k >= 0 is at least two digits (exactly two below 100) denoting k |
| TimeFormat.FormatTimeFields | trainer.js:56-60 | `formatTime` is `TimeFormat.FormatTime`; for n >= 0: a minutes field of at least two digits denoting n div 60, a colon, then exactly two digits denoting n mod 60 |
| TimeFormat.FormatTimeRoundTrip | trainer.js:56-60 | parsing `formatTime(n)` gives n back for every n >= 0 |
| TimeFormat.FormatTimeInjective | trainer.js:56-60 | two different non-negative times never share a display |
| TimeFormat.FormatTimeExample | trainer.js:56-60 | 605 seconds display as "10:05" |
| TimeFormat.FormatTimeNegativeExample | trainer.js:56-60 | with JavaScript's operators, -61 seconds display as "-2:-1" |
| Sampler.OfTypeMembers | trainer.js:82-86 | a task is in the list of a type if and only if it is in the bank and has that type |
| Sampler.AddTaskKeepsGroups | trainer.js:83-84 | one step of the `reduce` (create the list if missing, push) turns the grouping of a bank into the grouping of the bank plus that task |
| Sampler.GroupByTypeSpec | trainer.js:82-86 | the `reduce` is `Sampler.GroupByType`, a fold of `Sampler.AddTask`; it lists each type once, every task's type has a list, and each list is exactly that type's tasks in bank order, never empty |
| Sampler.KeysAreDistinctTypes | trainer.js:87 | the keys are exactly the distinct types of the bank, as many as there are |
| Sampler.ShufflePermutes | trainer.js:88 | the shuffle, `Sampler.Shuffle`, is a permutation of the keys |
| Sampler.ShuffleDistinct | trainer.js:88 | shuffling distinct keys gives distinct keys |
| Sampler.ShuffleReachesEvery | trainer.js:88 | every ordering of the keys is produced by some choice of the randomness |
| Sampler.SelectedTypesSpec | trainer.js:87-89 | the kept types number what `slice` keeps of the distinct types, are pairwise different, and each has a group |
| Topic.NumberOr | trainer.js:65 | `x \|\| d` on a number setting gives the setting or the default, and never 0 with a nonzero default, so `totalTime \|\| 600` and `problemsToSelect \|\| 3` are nonzero |
| Topic.TextOr | trainer.js:113-114 | `x \|\| d` on a string setting gives the setting or the default, and never the empty string with a nonempty default |
| Sampler.SliceEnd | trainer.js:89 | the number of elements `slice(0, end)` keeps is at most the length, and at most `end` for a non-negative end |
| Sampler.ProductBelow | trainer.js:92 | `Math.random() * length` stays below `length` |
| Sampler.PickIndex | trainer.js:92 | `Math.floor(Math.random() * length)` is a valid index of the group |
| Sampler.PickIndexReachesEvery | trainer.js:92 | every index of a group can be drawn |
| Sampler.PickOne | trainer.js:91-92 | the task drawn for a type belongs to that type's group |
| Sampler.PickTasksSpec | trainer.js:81-94 | `pickTasks` is `Sampler.PickTasks`; the result has min(N, distinct types) tasks for N = `problemsToSelect \|\| 3` > 0, every task is from the bank, task i has the i-th type kept by the shuffle and `slice`, and their types are pairwise different |
| Sampler.OneTask | trainer.js:81-94 | a bank of one task yields exactly that task, whatever the randomness |
| Round.NewCardsSpec | trainer.js:119-125 | card i is for picked task i, with that task's generated instance, an empty input and no feedback |
| Round.GradeAllSpec | trainer.js:134-145 | card i after the check is card i graded on its own trimmed input |
| Round.GradeKeepsCards | trainer.js:134-145 | grading changes only the feedback, which says "correct" exactly when the checker accepts the trimmed input |
| Round.CountCorrectStep | trainer.js:137-138 | counting one card further adds one exactly when that card is judged correct |
| Round.GradeCards | trainer.js:133-145 | the loop grades every card and leaves `correctCount` equal to the number of accepted cards |
| Round.CountCorrectIsCardinality | trainer.js:133-138 | the score is the size of the set of positions whose answers are accepted |
| Round.ScoreTextInjective | trainer.js:147 | the score line shows both numbers: different (score, total) pairs never print the same line |
| Round.Trainer.TitleText | trainer.js:113 | the title shown is never empty: it is the topic's title, or 'Тренажёр' when that is missing or empty |
| Round.Trainer.SubtitleText | trainer.js:114 | the subtitle shown is the topic's subtitle, or empty |
| Round.Trainer.TimerText | trainer.js:66-73 | the timer element shows `formatTime(timeLeft)`, which reads back as `timeLeft` whenever the countdown is not negative |
| Round.Trainer.ResultText | trainer.js:147 | the results line `Результат: X из Y` names exactly the score and the number of cards: no other pair prints it |
| Round.Trainer.AtMostOneTimer | trainer.js:63-67 | under the timer invariant, at most one interval fires |
| Round.Trainer.constructor | trainer.js:50-54 | from the empty `state`, the first `render` leaves a round started with the tasks `pickTasks` returns, interval 1 running, score 0 |
| Round.Trainer.StartTimer | trainer.js:62-79 | the previous interval is cleared before exactly one new one starts, the round is reopened, and the countdown restarts from `totalTime \|\| 600` |
| Round.Trainer.Render | trainer.js:112-127 | results hidden, both buttons enabled, one new card per picked task in order, a fresh interval and countdown, the last score kept |
| Round.Trainer.Check | trainer.js:129-148 | a no-op on a finished round; otherwise it finishes the round once, disables the check button, grades every card, shows the panel, and sets the score to the number of accepted cards, so the panel reads `Результат: <accepted> из <number of cards>` |
| Round.Trainer.Tick | trainer.js:67-78 | on a finished round it only clears the interval; otherwise the countdown drops by exactly 1, and at zero or below the interval is cleared and the round is scored |
| Round.RunOut | trainer.js:67-78 | a round left alone is scored by its `timeLeft`-th tick (its first tick when the countdown starts at zero or below), once, with no interval left running, and a later manual check changes nothing |
| Round.Trainer.TypeAnswer | trainer.js:135 | the student typing into card i sets that card's input value, which `checkAnswers` reads, and changes nothing else |
| Round.CheckThenTickScenario | trainer.js:68-71 | a manual check then a tick: the tick clears the interval and the score stays as the check set it |
| Pdf.QuestionNumbered | trainer.js:180 | the question text is `Pdf.QuestionText`; the question of card `index` starts with the digits of index + 1, then ". ", then the problem text |
| Pdf.QuestionTextInjective | trainer.js:180 | different cards or different problem texts never print the same question |
| Pdf.UserAnswerLineSpec | trainer.js:184-185 | the line is `Pdf.UserAnswerLine`; an all-whitespace input prints the placeholder 'нет ответа'; any other input prints its trimmed, nonempty text |
| Pdf.FileNameSpec | trainer.js:207 | the file name, `Pdf.FileName`, is the title with every space and only spaces turned into '_', then ".pdf"; it has no space |
| Pdf.AnswerLine | trainer.js:188 | the correct-answer line is the label 'Правильный ответ: ' followed by the answer text unchanged |
| Pdf.CorrectAnswerIgnoresInput | trainer.js:181 | the correct answer printed for a card does not depend on what the student typed |
| Pdf.PrintCard | trainer.js:170-204 | one card: the page break check, then the question lines at the cursor, the student's answer 5 per line plus 5 lower, the correct answer 7 lower, and the cursor moved by 5 per line plus 27 |
| Pdf.GeneratePdf | trainer.js:166-207 | no document without a title; otherwise the title entry, then each card's entries placed by the cursor rules, the page count and the file name |
| Pdf.LayoutStart | trainer.js:169-174 | the first card starts at y = 40 on page 1, and every card starts between 20 and 270 |
| Pdf.PageBreakRule | trainer.js:171-174 | the next card starts on the same page right where the previous one ended if that is at most 270, and otherwise at 20 on the next page |
| Pdf.PageCount | trainer.js:169-174 | the page count is the page of the last card, or 1 with no cards |
| Pdf.EntriesPerCard | trainer.js:190-203 | after the title, three entries per card in card order, at the card's start and below it on the card's page |

## Left out

- The DOM is not modelled: elements, `innerHTML`, classes and event listeners. Button clicks are calls of the methods.
- Reading the topic from the query string and loading its script (trainer.js:1-48) are left out. The button listeners (trainer.js:210-212) become calls of `Check`, `Render` and `GeneratePdf`; the first `render()` (trainer.js:214) is the `Trainer` constructor.
- Real time is left out. A tick is a call of `Tick`, allowed only while the current interval is live, because a cleared interval never fires.
- The model makes no claim about the distribution of the shuffle or the picks: which orders and tasks are likely, and whether they are uniform. It only proves that every outcome is possible.
- Floating-point rounding of `Math.random() * length` is not modelled. The product is taken in real numbers.
- Settings are integers or absent. NaN, non-integer numbers and values of other types are not modelled.
- Numbers are unbounded integers, not doubles. Above 2^53 `timeLeft--` (trainer.js:72) can leave the value unchanged, and from 1e21 on `String` (trainer.js:57) prints an exponent form; neither is modelled.
- Sampler.AddTask: the `reduce` indexes a plain object (trainer.js:83-84), so a type named like an inherited `Object.prototype` property (`constructor`, `toString`, `__proto__`, ...) finds a truthy value, its list is never created and the `push` throws, aborting `render` after the cards are cleared (trainer.js:119-120) and before the timer restarts. The model groups such a type like any other.
- The grouping function `kind` stands for the property key JavaScript makes of `task.type`, its string form: types with the same string form (`1` and `"1"`) share one group, and `Sampler.PickTasksSpec` counts distinct keys in that sense. The `Trainer` constructor takes `kind: T -> string` for this reason. The order `Object.keys` gives the keys is not modelled, since the keys are shuffled into an arbitrary order anyway.
- The font embedding block, with its alert and fallback font (trainer.js:155-163), is left out. Font sizes and colours are kept.
- `setTextColor` is not modelled as a separate call. Each entry records its colour.
- `splitTextToSize` and `innerText` are parameters. Line wrapping and HTML stripping are not modelled.
- Round.Render: it takes the tasks `pickTasks` returned as a parameter. The constructor passes `Sampler.PickTasks` of the given randomness, and a re-roll is `Render` with a new draw.
- Round.NewCards: `task.generate()` is a function of the task. The model cannot tell apart two calls that generate different instances for the same task.
- Round.Check: the feedback is `Right` or `Wrong` with the correct answer text. The CSS classes and HTML of the feedback element are left out.
- Pdf.GeneratePdf: without a title the source fails no later than `title.replace` (trainer.js:207) and saves nothing; it may already fail at the title's `doc.text` (trainer.js:167), depending on jsPDF. The model then returns no document and does not model what jsPDF does with an undefined text.
