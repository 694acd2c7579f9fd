# Topic cluster explorer: a verified model of its data core

The topic cluster explorer is a small web page over a table of documents.
Each row is a post with a title (`op_title`), a body (`op_text`) and the
topic a clustering step gave it (`topic`, with -1 for documents no topic
claimed). The page picks a topic that has at least five documents, shows five
of them, and highlights the keywords all five have in common.

This project models the part of `streamlit_topic_explorer.py` that computes
what the page shows, and proves properties of that model in Dafny:

- `Text` (`text.dfy`): ASCII character classes, `str.lower`, and the word
  tokens that `\b` separates. A token is a maximal run of word characters
  (letters, digits, `_`) or one other character.
- `Keywords` (`keywords.dfy`): `extract_keywords`, the distinct matches of
  `\b[a-zA-Z]{5,}\b` in the lower-cased text. `KeywordsOfSpec` shows that the
  token scan finds exactly the matches of that pattern.
- `Highlighter` (`highlight.dfy`): `highlight_keywords`. The loop is the method
  `Highlight`: it takes the keywords longest first and applies one
  case-insensitive `re.sub` per keyword, modelled by `Substitute`. Its
  reference is `Highlighted`. That function cuts the text into tokens and marks
  each word whose lower-case form is a keyword. For extracted keywords the loop
  is proved to produce exactly that text, whatever order equal-length keywords
  take.
- `Dataset` (`dataset.dfy`): `load_data` after the file is read. It keeps the
  rows whose topic is present and is not -1, and derives `combined_text`.
- `Sampler` (`sampler.dfy`): `get_random_examples`. It covers the eligible
  topics, the cluster of the chosen topic, the draw of five documents, the
  intersection of their keyword sets and the highlighting of each document.
  The two random draws are inputs:
  - `topicIndex` is what `random.choice` picked from the eligible topics;
  - `picks` are the five distinct positions `sample(5)` drew from the cluster.

## Model

| member | source | states |
|---|---|---|
| `Text.LowerChar` | streamlit_topic_explorer.py:22 | lower-casing one character maps each upper-case letter to its own lower-case letter (same place in the alphabet), leaves lower-case letters and every non-letter alone, and keeps word characters word characters |
| `Text.Lower` | streamlit_topic_explorer.py:22 | `str.lower` keeps the length and lower-cases each character in place |
| `Text.LowerIsLower` | streamlit_topic_explorer.py:22 | the lower-cased text has no upper-case letter, and lower-casing it again changes nothing |
| `Text.TokenLen` | streamlit_topic_explorer.py:22 | the first token is a maximal non-empty run of word characters, or a single non-word character |
| `Text.TokenLenConcat` | streamlit_topic_explorer.py:22 | when two texts meet at a `\b` boundary, their concatenation starts with the same token as the first text |
| `Keywords.KeywordsOf` | streamlit_topic_explorer.py:22 | every word the token scan finds is a whole run of letters; in a text with no upper-case letter each has five or more lower-case letters |
| `Keywords.ExtractKeywords` | streamlit_topic_explorer.py:21-22 | every member of `extract_keywords` is a keyword: five or more lower-case ASCII letters |
| `Keywords.KeywordsOfSpec` | streamlit_topic_explorer.py:22 | a word is found by the token scan exactly when `\b[a-zA-Z]{5,}\b` matches it somewhere in the text (both directions) |
| `Keywords.ExtractKeywordsSound` | streamlit_topic_explorer.py:21-22 | every extracted keyword has five or more lower-case letters and is a match of the pattern, on word boundaries, in the lower-cased text |
| `Keywords.ExtractKeywordsComplete` | streamlit_topic_explorer.py:21-22 | every match of the pattern in the lower-cased text is extracted |
| `Keywords.ExtractKeywordsEmpty` | streamlit_topic_explorer.py:21-22 | a text in which the pattern matches nowhere gives the empty set |
| `Highlighter.Highlight` | streamlit_topic_explorer.py:24-27 | the loop applies one substitution per keyword, each keyword once and longest first; with no keywords the text comes back unchanged; for keywords it returns the text with every whole-word, case-insensitive occurrence marked |
| `Highlighter.Substitute` | streamlit_topic_explorer.py:26 | one `re.sub` never shortens the text, and a text shorter than the keyword has no match and comes back unchanged |
| `Highlighter.SubstituteAll` | streamlit_topic_explorer.py:25-26 | the substitutions in sequence never shorten the text, and when every keyword is longer than the text nothing is changed |
| `Highlighter.Render` | streamlit_topic_explorer.py:26 | showing the pieces never drops a character, and with no marked piece it is the text itself |
| `Highlighter.Highlighted` | streamlit_topic_explorer.py:24-27 | the highlighted text is never shorter than the input, and for the empty keyword set it is the input unchanged |
| `Highlighter.Segments` | streamlit_topic_explorer.py:26 | cutting the text into plain and marked pieces loses nothing: removing the inserted marks gives back the input, and only whole words whose lower-case form is a keyword are marked |
| `Highlighter.HighlightedWrapsOccurrence` | streamlit_topic_explorer.py:26 | every whole-word occurrence of a keyword, in any case, is wrapped once in `<mark>`…`</mark>` and keeps the case it had in the text |
| `Highlighter.SubstituteStep` | streamlit_topic_explorer.py:25-26 | substituting one more keyword into text already highlighted for other keywords gives the text highlighted for all of them |
| `Highlighter.HighlightStep` | streamlit_topic_explorer.py:25-26 | one pass of the loop moves one keyword from pending to done and keeps the result equal to the text highlighted for the keywords done |
| `Highlighter.LongestExists` | streamlit_topic_explorer.py:25 | a non-empty set of keywords has a longest element, so the longest-first order always has a next keyword |
| `Highlighter.SubstituteSplit` | streamlit_topic_explorer.py:26 | for a keyword, substituting in two texts that meet at a word boundary is substituting in each part, the second knowing what character came before it |
| `Highlighter.WordSubstitute` | streamlit_topic_explorer.py:26 | a single word is wrapped, in its own case, exactly when its lower-case form is the keyword, and otherwise stays as it is |
| `Highlighter.WordAtMatch` | streamlit_topic_explorer.py:26 | a whole word that is the keyword, ignoring case, is wrapped in `<mark>`…`</mark>` in its own case |
| `Highlighter.WordNoMatch` | streamlit_topic_explorer.py:26 | a whole word that is not the keyword, ignoring case, is left as it is |
| `Highlighter.WordMatch` | streamlit_topic_explorer.py:26 | `\b(w)\b`, ignoring case, matches a whole word exactly when the word lower-cased is the keyword |
| `Highlighter.InteriorUnchanged` | streamlit_topic_explorer.py:26 | no match begins inside a word, because `\b` fails there |
| `Highlighter.OpenUnchanged` | streamlit_topic_explorer.py:26 | a later substitution never matches inside an inserted `<mark>` |
| `Highlighter.CloseUnchanged` | streamlit_topic_explorer.py:26 | a later substitution never matches inside an inserted `</mark>` |
| `Highlighter.MarkedWordUnchanged` | streamlit_topic_explorer.py:25-26 | a word already wrapped for another keyword stays as it is, marks included |
| `Highlighter.SegmentsConcat` | streamlit_topic_explorer.py:26 | cutting two texts that meet at a word boundary cuts each part on its own |
| `Highlighter.SegmentsAroundOccurrence` | streamlit_topic_explorer.py:26 | around a keyword word the pieces are those of the text before it, the marked word, and those of the text after it |
| `Highlighter.OccurrenceIsWord` | streamlit_topic_explorer.py:26 | a case-insensitive whole-word occurrence of a keyword is a word whose lower-case form is that keyword |
| `Dataset.CombinedText` | streamlit_topic_explorer.py:15 | `combined_text` is the title (or "" when missing), then ". ", then the body (or ""): cutting after the title gives both parts back, and with both missing it is exactly ". " |
| `Dataset.FillEmpty` | streamlit_topic_explorer.py:15 | `fillna('')`: a present cell keeps its text and a missing one becomes the empty string |
| `Dataset.Derive` | streamlit_topic_explorer.py:14-15 | a kept row keeps its topic (never -1), title and body, and gains its `combined_text` |
| `Dataset.LoadData` | streamlit_topic_explorer.py:14-15 | the filtered table is no longer than the input and no row of it has topic -1 |
| `Dataset.KeptIndices` | streamlit_topic_explorer.py:14 | the positions of the rows whose topic is present and not -1, increasing, each such position listed |
| `Dataset.LoadDataSelects` | streamlit_topic_explorer.py:14-15 | the filtered table is exactly the kept rows, in their original order, each with its `combined_text` |
| `Dataset.LoadDataKeeps` | streamlit_topic_explorer.py:14-15 | a record is in the result of `load_data` exactly when some input row has a topic that is present and not -1 and derives that record |
| `Sampler.Cluster` | streamlit_topic_explorer.py:33 | the cluster of a topic holds exactly the documents with that topic, and no more documents than the table |
| `Sampler.ClusterIndices` | streamlit_topic_explorer.py:33 | the positions of the documents with the topic, increasing, each such position listed |
| `Sampler.ClusterSelects` | streamlit_topic_explorer.py:33 | the cluster is exactly the documents at those positions, in table order, so it has one entry per document of the topic |
| `Sampler.Count` | streamlit_topic_explorer.py:30 | the entry of `value_counts()` for a topic is the number of positions whose document has that topic |
| `Sampler.Topics` | streamlit_topic_explorer.py:30 | the topics of the table, each listed once, and exactly those some document has |
| `Sampler.KeepEligible` | streamlit_topic_explorer.py:31 | the topics kept are exactly those with at least five documents, each once |
| `Sampler.EligibleTopics` | streamlit_topic_explorer.py:30-31 | a topic is eligible exactly when it has at least five documents, and no topic is listed twice |
| `Sampler.IntersectAll` | streamlit_topic_explorer.py:36 | `set.intersection` of the sets: a word is in it exactly when it is in every set; with no sets it is empty |
| `Sampler.KeywordSets` | streamlit_topic_explorer.py:35 | one keyword set per drawn document, in order |
| `Sampler.CommonKeywords` | streamlit_topic_explorer.py:35-36 | with no documents the common set is empty; otherwise a word is common exactly when every document has it as a keyword; every common word is a keyword |
| `Sampler.CommonKeywordsSubset` | streamlit_topic_explorer.py:35-36 | the common keywords are a subset of each document's keywords |
| `Sampler.Records` | streamlit_topic_explorer.py:33 | the documents of the examples, in order |
| `Sampler.Pick` | streamlit_topic_explorer.py:33 | the drawn documents are the cluster's documents at the drawn positions, one per position, in draw order |
| `Sampler.PickAllIsPermutation` | streamlit_topic_explorer.py:33 | drawing every position of a cluster once, in any order, yields the same documents rearranged (equal multisets) |
| `Sampler.RandomExamples` | streamlit_topic_explorer.py:29-39 | fails exactly when no topic is eligible; otherwise returns the drawn eligible topic and five examples |
| `Sampler.Draw` | streamlit_topic_explorer.py:33 | the loop collects the cluster's documents at the drawn positions, in draw order and indexed from 0, which is `Pick` |
| `Sampler.IntersectKeywords` | streamlit_topic_explorer.py:35-36 | the computed set is the intersection of the documents' keyword sets, and all its members are keywords |
| `Sampler.HighlightedExamples` | streamlit_topic_explorer.py:37 | each example keeps its document, in order, and its `highlighted` text has every common-keyword word marked; with nothing in common it equals `combined_text` |
| `Sampler.HighlightOne` | streamlit_topic_explorer.py:37 | one document becomes an example that keeps it and whose `highlighted` text is its `combined_text` with every common-keyword word marked |
| `Sampler.HighlightAll` | streamlit_topic_explorer.py:37 | the loop over the drawn documents builds exactly the highlighted examples, in order |
| `Sampler.RandomExamplesSpec` | streamlit_topic_explorer.py:29-39 | fails exactly when no topic has five documents; otherwise returns the drawn eligible topic, which has at least five documents, and five examples indexed 0 to 4, each the cluster document at its drawn position, all of that topic, each highlighted for the keywords all five share (unchanged when they share none) |
| `Sampler.DrawnRows` | streamlit_topic_explorer.py:33 | the five examples are the table's rows at five distinct positions, all with the chosen topic |
| `Sampler.WholeClusterDrawn` | streamlit_topic_explorer.py:33 | when the chosen topic has exactly five documents, the five examples are all of them, in some order |
| `Sampler.GetRandomExamples` | streamlit_topic_explorer.py:29-39 | the step-by-step computation (value counts, choice, sample, keyword sets, intersection, highlighting) returns exactly the result `RandomExamplesSpec` describes |

## Left out

- The user interface (lines 42-65): page layout, the refresh button, the
  session state and the markdown rendering. None of it computes data.
- Reading the CSV from its URL and the `st.cache_data` cache. The model starts
  from the rows of the table.
- The probability distributions of `random.choice` and `DataFrame.sample`.
  The model takes the drawn position and the five drawn positions as inputs,
  and states every outcome the draws can produce.
- Sampler.EligibleTopics: lists the eligible topics in order of first
  appearance. `value_counts()` orders them by decreasing count. Since the
  chosen position is an input, both orders give the same possible outcomes.
- Highlighter.Highlight: equal-length keywords are taken in an arbitrary order
  (the order a set iterates in), so the exact order is a ghost output. For
  extracted keywords the result does not depend on it.
- Unicode: text is ASCII. Python's `str.lower`, `\b`, `\w` and `re.IGNORECASE`
  also treat non-ASCII letters and digits, including characters such as the
  Kelvin sign, which lower-cases to an ASCII `k`.
- `str(text)` on a cell that is not a string (a number, say). Titles and
  bodies are modelled as strings or missing.
- Updating the DataFrames in place (the filter's reassignment of `df` and the
  new `combined_text` and `highlighted` columns). Tables are modelled as
  sequences of records, and each new column becomes a field of the result.
- Dataset.Row: a topic is an integer or missing. A float topic such as
  `-1.0` compares like the integer -1, so nothing else is lost.
