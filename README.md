# To-do item display model

A Dafny model of the to-do entity of a small to-do list application. An item
holds a `text` of at most 200 characters and a `done` flag that starts out
false. Its display string is the text itself while the item is pending. Once the
item is done, the display string is the text struck through: every character is
followed by the combining code point U+0336 (COMBINING LONG STROKE OVERLAY).

Everything lives in module `TodoModels` (`models.dfy`):

- `Struck` is the functional specification of the strikethrough transform.
  `Unstrike` is its inverse: it keeps the characters at even positions.
  `Interleaves` states the shape of a struck string position by position.
- The class `TodoItem` has the entity's two fields. `StrikedText` is the
  character-by-character accumulation loop, proved equal to `Struck`.
  `Display` is the `__str__` case split on `done`.
- The lemmas state the properties of the transform: the index characterisation,
  both directions of the round trip, distribution over concatenation, and the
  worked "Buy milk" example.

## Model

| member | source | states |
|---|---|---|
| TodoModels.Struck | code/todo/models.py:10-13 | the struck text is exactly twice as long as the text, so an empty text gives an empty result and only an empty text does |
| TodoModels.StruckAt | code/todo/models.py:11-12 | for every index i of the text, position 2*i of the struck text holds text[i] and position 2*i+1 holds U+0336 |
| TodoModels.StruckIffInterleaves | code/todo/models.py:9-13 | a string is the struck text of `s` if and only if it has length 2*\|s\|, holds s[i] at every even position 2*i, and holds U+0336 at every odd position |
| TodoModels.StruckAppend | code/todo/models.py:11-12 | striking `a + b` gives the struck `a` followed by the struck `b` |
| TodoModels.Unstrike | code/todo/models.py:11-12 | keeping the even positions of a string of length n yields (n+1)/2 characters, the i-th being the one at position 2*i |
| TodoModels.UnstrikeStruck | code/todo/models.py:11-12 | dropping the strike marks (keeping the even positions) of the struck text recovers the text exactly |
| TodoModels.StruckUnstrike | code/todo/models.py:9-12 | conversely, a string of even length with U+0336 at every odd position is the struck text of its even-position characters, so striking loses no information |
| TodoModels.BuyMilk | code/todo/models.py:8-13 | "Buy milk" struck through is B, U+0336, u, U+0336, y, U+0336, space, U+0336, m, U+0336, i, U+0336, l, U+0336, k, U+0336 |
| TodoModels.TodoItem.constructor | code/todo/models.py:3-5 | a new item holds the given text of at most 200 characters and is not done |
| TodoModels.TodoItem.WithDone | code/todo/models.py:3-5 | a new item holds the given text of at most 200 characters and the given completion flag |
| TodoModels.TodoItem.StrikedText | code/todo/models.py:8-13 | the accumulation loop returns exactly `Struck(text)`; it has no `modifies` clause, so `text` and `done` are unchanged |
| TodoModels.TodoItem.Display | code/todo/models.py:15-19 | a pending item displays its text unchanged; a done item displays the text interleaved with U+0336 marks, from which the text is recovered by dropping the marks; a valid item's display is at most 400 characters; as a function that only reads the item it changes neither field |

## Left out

- code/setup.py (the administrator seeding script) is not part of this model: it consists of calls into the web framework's user store and its password hashing, with no local logic beyond one emptiness test.
- Persistence, reload and identifier assignment of items belong to the framework's object-relational layer and are not modelled.
- The 200-character limit and the `done` default are enforced by the framework's field and validation layer; here they appear only as the constructors' precondition and the `Valid` predicate, not as a validation routine with an error path.
- Editing the text and toggling `done` are plain field assignments made by the framework; the model exposes the fields as mutable and adds no methods for them.
- Python strings may hold lone surrogate code points, which Dafny's `char` (a Unicode scalar value) cannot represent; texts are modelled as sequences of scalar values.
- How a text-shaping engine renders U+0336 is outside the model; only the code-point sequence is modelled.
