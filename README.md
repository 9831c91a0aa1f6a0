# PencilSharp learning core in Dafny

This project models the logic of PencilSharp, a desktop learning app. The GUI
code is not modelled. Five parts are:

- **Curriculum** (`curriculum.dfy`, module `Curriculum`). A `Subject` holds
  ordered units, and each unit holds ordered topics. Topic completion is
  `progress >= 100`. `UpdateProgress` derives the subject's percentage and
  each unit's percentage from topic counts.
- **Progress tracker** (`progress.dfy`, module `Progress`). `UserProgress`
  tracks experience points, points, the day streak, lessons completed today,
  a per-subject progress map, and an append-only achievement list. Three
  award rules fill that list: "First Lesson", "Perfect Day", and the streak
  milestones.
- **App controller** (`controller.dfy`, module `Controller`). `AppController`
  loads subjects from configuration and keeps the current subject, unit and
  topic selection. It completes the selected topic and announces every
  successful change to its observers.
- **Observer registry** (`observers.dfy`, module `Observers`). `Observable`
  keeps a duplicate-free observer list. `EventEmitter` maps event types to
  handler lists.
- **LaTeX-to-Unicode rewriter** (`latex.dfy`, module `Latex`). It strips `$`,
  rewrites `\frac{N}{D}` to `(N/D)`, applies a fixed symbol table in order,
  and strips braces. `replace`, `split`, `join`, `find` and slicing follow
  Python's semantics, including `find` returning -1 and negative slice
  indices.

`options.dfy` holds `Option` and Python truthiness of an optional string.

Modelling choices:
- Topics and units are values inside their subject's list. Subjects,
  trackers, observables and the controller are objects whose methods update
  their fields.
- Percentages are exact reals.
- Dates are integer day numbers passed in by the caller.
- An announcement is recorded in the controller's `events` trace. The call it
  makes on each registered observer is recorded in `deliveries`.

Loading unlocks the first topic of the first unit in every subject, because
the indices `i` and `j` restart for each subject
(src/controllers/app_controller.py:19-24).

## Model

| member | source | states |
|---|---|---|
| Observers.IndexOf | src/utils/observer.py:22 | the position `list.remove` deletes: it holds the element, and no earlier position does |
| Observers.RemoveFirst | src/utils/observer.py:22 | an absent element leaves the list as it is; otherwise the first copy goes and the others keep their order: everything before it stays, everything after it moves up one place |
| Observers.RemoveFirstKeepsNoDuplicates | src/utils/observer.py:19-22 | removing from a duplicate-free list keeps it duplicate-free and leaves the element absent |
| Observers.Broadcast | src/utils/observer.py:24-27 | one call per registered observer, in list order, each with the same event type and data |
| Observers.Observable.constructor | src/utils/observer.py:11-12 | starts with an empty, duplicate-free list |
| Observers.Observable.AddObserver | src/utils/observer.py:14-17 | appends only an absent observer, so the list stays duplicate-free and keeps its order |
| Observers.Observable.RemoveObserver | src/utils/observer.py:19-22 | removes a present observer, keeps the others in order, and is a no-op for an absent one |
| Observers.Observable.NotifyObservers | src/utils/observer.py:24-27 | the loop makes exactly the calls of `Broadcast` |
| Observers.EventEmitter.constructor | src/utils/observer.py:30-31 | starts with no event types |
| Observers.EventEmitter.On | src/utils/observer.py:33-37 | appends the handler, keeping duplicates, and creates the list for a new type; no type maps to an empty list |
| Observers.EventEmitter.Off | src/utils/observer.py:39-44 | unknown type: no-op; known type lacking the handler: raises and changes nothing; otherwise the first copy goes and an emptied type is deleted |
| Observers.EventEmitter.Emit | src/utils/observer.py:46-50 | calls the type's handlers once each in registration order; no calls for an unknown type |
| Curriculum.Completed | src/models/subject.py:32 | `progress >= 100`; `CountCompleted` and `UnitFullIffAllCompleted` state what counting it gives |
| Curriculum.NewTopicDefaults | src/models/subject.py:4-9 | a new topic is locked, has progress 0 and is not completed |
| Curriculum.Percentage | src/models/subject.py:39 | lies in [0, 100] when completed <= total; 100 exactly when all are completed; 0 exactly when none is |
| Curriculum.PercentageBounds | src/models/subject.py:39 | the bounds and both if-and-only-ifs of `(completed / total) * 100` |
| Curriculum.PercentageMonotone | src/models/subject.py:39 | more completed topics never give a lower percentage |
| Curriculum.CountCompleted | src/models/subject.py:32 | at most the list length; equal to it exactly when all are completed; 0 exactly when none is |
| Curriculum.CountCompletedIsCardinality | src/models/subject.py:29-34 | the count is the number of positions whose topic has progress >= 100 |
| Curriculum.CountCompletedAppend | src/models/subject.py:29-34 | the count of a concatenation is the sum of the counts |
| Curriculum.CountCompletedUpdate | src/models/subject.py:29-34 | replacing one topic changes the count by that topic's own contribution |
| Curriculum.TopicCount | src/models/subject.py:25-27 | the nested sum of unit lengths; `CountsOfAllTopics` shows it equals the length of the flattened topic list and `TopicCountSameShape` that it depends only on unit lengths |
| Curriculum.CompletedCount | src/models/subject.py:29-34 | the completed topics never outnumber all topics |
| Curriculum.CompletedCountUpdate | src/models/subject.py:29-34 | replacing one unit changes the completed count by the difference of that unit's counts |
| Curriculum.CountsOfAllTopics | src/models/subject.py:25-34 | both sums equal the length and completed count of the flattened topic list |
| Curriculum.Subject.constructor | src/models/subject.py:17-23 | stores name, icon, colour and units; progress starts at 0 |
| Curriculum.Subject.TotalTopics | src/models/subject.py:25-27 | the number of topics over all units |
| Curriculum.Subject.CompletedTopics | src/models/subject.py:29-34 | the number of completed topics over all units, never more than `TotalTopics` |
| Curriculum.Subject.UpdateProgress | src/models/subject.py:36-42 | no topics: nothing changes; otherwise the subject's progress is the completed percentage and every unit's progress is recomputed from its own topics |
| Curriculum.WithProgress | src/models/subject.py:41-42 | keeps the unit's name and topics; its percentage lies in [0, 100], is 100 exactly when all topics are completed and 0 exactly when none is |
| Curriculum.RecomputeUnits | src/models/subject.py:40-42 | the loop gives each unit the percentage of its own completed topics and keeps everything else |
| Curriculum.UnitOrderAndTopicsKept | src/models/subject.py:36-42 | rewriting unit progress keeps the topic count, the completed count and every topic in order |
| Curriculum.TopicCountSameShape | src/models/subject.py:25-27 | the topic count depends only on how many topics each unit has |
| Curriculum.UnitFullIffAllCompleted | src/models/subject.py:41-42 | a unit reaches 100 exactly when all its topics are completed |
| Progress.IntToString | src/models/user.py:66 | the decimal rendering used in descriptions is never empty |
| Progress.HasNamed | src/models/user.py:52 | `any(a.name == name ...)`; `HasNamedIffCounted` shows it holds exactly when the name's count is positive |
| Progress.HasPerfectDayOn | src/models/user.py:62-63 | the dated `any(...)` test; `HasPerfectDayIffCounted` shows it holds exactly when that day's count is positive |
| Progress.AwardFirstLesson | src/models/user.py:51-58 | only appends, at most one entry, named "First Lesson" and dated today; `FirstLessonRule` states exactly when |
| Progress.AwardPerfectDay | src/models/user.py:60-69 | only appends, at most one entry, named "Perfect Day" and dated today; `PerfectDayRule` states exactly when |
| Progress.AwardMilestones | src/models/user.py:71-84 | checking milestones only appends, at most one entry per milestone, each dated today |
| Progress.CheckedAchievements | src/models/user.py:49-84 | `_check_achievements` only appends, at most five entries, all dated today |
| Progress.UserProgress.constructor | src/models/user.py:11-21 | the dataclass defaults: zero counters, daily goal 5, no achievements, empty progress map, activity date today |
| Progress.UserProgress.AddXp | src/models/user.py:23-26 | adds the amount to xp and `amount // 2` to points; nothing else changes |
| Progress.UserProgress.UpdateStreak | src/models/user.py:28-35 | a one-day gap extends the streak, a longer gap resets it, no gap keeps it; the activity date becomes today |
| Progress.UserProgress.CompleteLesson | src/models/user.py:37-47 | one more lesson today, 10 more xp, 5 more points, the subject's entry bumped, progress kept in [0, 100], achievements checked |
| Progress.UserProgress.CheckAchievements | src/models/user.py:49-84 | the appends are exactly those of `CheckedAchievements` |
| Progress.BumpProgress | src/models/user.py:42-44 | the subject's entry, 0 when absent, grows by 5 and is capped at 100; other entries are kept |
| Progress.NameCountAppend | src/models/user.py:49-84 | name counts add over concatenation |
| Progress.HasNamedIffCounted | src/models/user.py:52 | `any(a.name == name ...)` holds exactly when the name's count is positive |
| Progress.PerfectDaysAppend | src/models/user.py:60-69 | "Perfect Day" counts per day add over concatenation |
| Progress.HasPerfectDayIffCounted | src/models/user.py:62-63 | an earned-today "Perfect Day" exists exactly when that day's count is positive |
| Progress.AwardMilestonesOtherName | src/models/user.py:71-84 | milestone checks leave the count of every other name alone |
| Progress.AwardMilestonesCount | src/models/user.py:71-84 | a milestone is appended exactly when it is reached and not yet held |
| Progress.FirstLessonRule | src/models/user.py:51-58 | "First Lesson" is added exactly on the first lesson of the day when none is held, so at most one is ever held |
| Progress.PerfectDayRule | src/models/user.py:60-69 | "Perfect Day" is added for today exactly when the goal is met and none was earned today; at most one per day |
| Progress.MilestoneRule | src/models/user.py:71-84 | each streak milestone is added exactly when the streak reaches it and it is not held, so none is held twice |
| Progress.MilestoneNames | src/models/user.py:72-76 | the milestone names are distinct and differ from the other two rules' names |
| Progress.MilestonesInOrder | src/models/user.py:77-84 | milestones appended in one check come in ascending threshold order |
| Progress.AwardsInRuleOrder | src/models/user.py:49-84 | new achievements come in rule order: "First Lesson", then "Perfect Day", then milestones by threshold |
| Progress.FirstLessonOfFreshTracker | src/models/user.py:51-58 | the first lesson of a fresh tracker earns "First Lesson" and nothing else |
| Progress.PointsPerCall | src/models/user.py:23-26 | on two fresh trackers, `add_xp(a); add_xp(b)` gives the same xp as `add_xp(a + b)` and at most one point fewer, never more |
| Progress.PointsAsymmetry | src/models/user.py:23-26 | `add_xp(3)` twice earns 2 points where `add_xp(6)` earns 3 |
| Progress.PerfectDayOnce | src/models/user.py:37-69 | seven lessons in one day with goal 5: 70 xp, 35 points, one "Perfect Day" and one "First Lesson" |
| Progress.WeekWarrior | src/models/user.py:28-84 | a streak of 6 extended the next day reaches 7, and "Week Warrior" is earned once even when checked twice |
| Controller.LoadTopics | src/controllers/app_controller.py:20-27 | one topic per configured name, in order; `LoadedUnlockRule` states its names, progress and lock flags |
| Controller.LoadUnits | src/controllers/app_controller.py:19-28 | one unit per configured unit, in order; `LoadedUnlockRule` states the topics it builds |
| Controller.LoadedUnlockRule | src/controllers/app_controller.py:19-28 | a loaded topic keeps its configured name and has progress 0; it is unlocked exactly when it is the first topic of the first unit |
| Controller.FirstNamed | src/controllers/app_controller.py:71-72 | the first topic with the name, or the list length when none has it |
| Controller.MarkCompleted | src/controllers/app_controller.py:70-78 | names kept; the first match gets progress 100; only the topic right after it is unlocked |
| Controller.CompleteFirstNamed | src/controllers/app_controller.py:70-78 | the loop gives exactly `MarkCompleted` |
| Controller.MarkedUnits | src/controllers/app_controller.py:70-78 | only the selected unit's topics change, as `MarkCompleted` says; its progress, the unit names and topic counts are kept, and the other units are untouched |
| Controller.MarkCompletedOnlyUnlocks | src/controllers/app_controller.py:73-78 | completing never locks a topic and touches only the match and its successor |
| Controller.MarkCompletedCount | src/controllers/app_controller.py:70-78 | the completed count grows by one exactly when the name occurs and that topic was not yet completed |
| Controller.CompletionCountsOne | src/controllers/app_controller.py:70-81 | the same for the whole subject; the topic count is unchanged and the percentage never drops |
| Controller.NextTopicSelectable | src/controllers/app_controller.py:74-77 | after completing a topic with a successor, that successor is unlocked and can be selected |
| Controller.CompleteInSubject | src/controllers/app_controller.py:69-81 | marks the topic and recomputes the subject's progress from the marked units |
| Controller.AppController.constructor | src/controllers/app_controller.py:7-13 | no subjects, nothing selected, a fresh tracker, no observers, no events |
| Controller.AppController.Notify | src/utils/observer.py:24-27 | records the event and exactly the `Broadcast` calls |
| Controller.AppController.LoadSubjects | src/controllers/app_controller.py:15-35 | every configured name gets a fresh subject with its icon, colour, loaded units and progress 0; other entries are kept |
| Controller.AppController.SelectSubject | src/controllers/app_controller.py:37-43 | known name: selects it, clears unit and topic, one `subject_changed`; unknown name: nothing changes |
| Controller.AppController.SelectUnit | src/controllers/app_controller.py:45-50 | with a truthy subject and an index in range: selects the unit, clears the topic, one `unit_changed`; otherwise nothing changes |
| Controller.AppController.SelectTopic | src/controllers/app_controller.py:52-62 | selects the name, with one `topic_changed`, exactly when the unit holds an unlocked topic of that name; otherwise nothing changes |
| Controller.AppController.CompleteTopic | src/controllers/app_controller.py:64-85 | without a full selection nothing changes; otherwise the topic is marked, the subject recomputed, the lesson recorded and one `progress_updated` sent; other subjects are kept |
| Controller.AppController.CompleteSelected | src/controllers/app_controller.py:69-85 | the completion: curriculum, tracker and announcement, as `CompleteTopic` states them |
| Controller.AppController.GetCurrentSubject | src/controllers/app_controller.py:87-89 | the selected subject exactly when a truthy, loaded name is selected |
| Controller.AppController.GetCurrentUnit | src/controllers/app_controller.py:91-96 | the selected unit exactly when a subject and a unit are selected |
| Controller.AppController.GetCurrentTopic | src/controllers/app_controller.py:98-103 | the first topic of the selected unit with the selected name, exactly when one exists |
| Controller.MathLoaded | src/controllers/app_controller.py:15-35 | the configuration Math = [U1: A, B; U2: C] loads with only A unlocked |
| Controller.MathCompletedA | src/controllers/app_controller.py:70-81 | completing A: A at 100, B unlocked, C still locked, one of three topics completed |
| Controller.MathUnitsAfterA | src/models/subject.py:40-42 | the unit percentages are then 50 and 0 |
| Controller.LoadMath | src/controllers/app_controller.py:15-35 | a fresh controller with only Math loaded and nothing selected |
| Controller.SelectMathA | src/controllers/app_controller.py:37-62 | selecting Math, unit 0 and topic A succeeds, with the three selection events in order |
| Controller.MathSession | src/controllers/app_controller.py:37-85 | the whole session: A done, B unlocked, U1 at 50%, Math at a third, 10 xp, 5 points, "First Lesson", four events |
| Latex.Contains | widgets.py:621 | `pat in s`; `ContainsIffOccurs` shows it holds exactly when the pattern occurs at some position |
| Latex.ContainsIffOccurs | widgets.py:621 | `in` holds exactly when the pattern occurs at some position of the text |
| Latex.Replace | widgets.py:618 | `str.replace`, leftmost and non-overlapping; `ReplaceKeepsOut`, `ReplaceRemovesChar` and `ReplaceAbsent` state its properties |
| Latex.ReplaceKeepsOut | widgets.py:639 | `replace` adds no character that is in neither the text nor the replacement |
| Latex.ReplaceRemovesChar | widgets.py:618 | replacing a character by nothing removes every occurrence |
| Latex.ReplaceAbsent | widgets.py:639 | replacing an absent pattern changes nothing |
| Latex.Split | widgets.py:623 | `str.split` with a separator; at least one piece; `SplitJoin` (the pieces join back to the text) and `SplitPiecesNoSeparator` (no piece holds the separator) together fix the pieces for a separator that cannot overlap itself, such as `\frac{` |
| Latex.Concat | widgets.py:635 | `"".join`; `ConcatKeepsOut` and `SplitJoin` state its properties |
| Latex.SplitPiecesNoSeparator | widgets.py:623 | `split` cuts at every occurrence: no piece holds the separator |
| Latex.SplitJoin | widgets.py:623 | joining the pieces of `split` with the same separator gives the text back |
| Latex.SplitFirstPrefix | widgets.py:623 | the first piece is the text before the first separator, and a separator follows it when there are more pieces |
| Latex.SplitFirstNoSeparator | widgets.py:623 | the first piece holds no separator |
| Latex.SplitAbsent | widgets.py:623 | text without the separator is one piece |
| Latex.SplitKeepsOut | widgets.py:623 | a character absent from the text is absent from every piece |
| Latex.ConcatKeepsOut | widgets.py:635 | `"".join` adds no character |
| Latex.FindFrom | widgets.py:626-629 | -1, or the first position from the start that holds the character |
| Latex.Clamp | widgets.py:627-631 | Python's slice-index adjustment: in-range indices are kept, a negative one counts from the end and is floored at 0, one past the end becomes the length |
| Latex.Find | widgets.py:626-629 | `find` from the adjusted start: the first position at or after it holding the character, or -1 exactly when there is none |
| Latex.Slice | widgets.py:627-631 | `s[i:j]` has length `max(0, b - a)` for the adjusted bounds `a` and `b`, and its k-th character is the text's character at `a + k` |
| Latex.ConvertPart | widgets.py:626-632 | the rewriting of one piece; `WellFormedFraction` and `ConvertPartKeepsOut` state its properties |
| Latex.WellFormedFraction | widgets.py:626-632 | a piece `N}{D}rest` without `}` in N or D becomes `(N/D)rest` |
| Latex.ConvertPartKeepsOut | widgets.py:626-632 | rewriting a piece adds no character but `(`, `/` and `)` |
| Latex.ConvertParts | widgets.py:624-632 | as many pieces as given, the first kept; `FractionPrefixUntouched` and `FractionsKeepOut` state the rest |
| Latex.ConvertFractions | widgets.py:621-635 | the fraction step; `FractionText` gives its result on a well-formed fraction, and `FractionPrefixUntouched`, `FractionsAbsent` and `FractionsKeepOut` state the rest |
| Latex.FractionText | widgets.py:621-635 | `\frac{N}{D}rest`, with no `}` in N or D and no further `\frac{`, becomes `(N/D)rest` |
| Latex.FractionPrefixUntouched | widgets.py:623-635 | the text before the first `\frac{` stays at the front, unchanged |
| Latex.FractionsAbsent | widgets.py:621-635 | without `\frac{` the fraction step changes nothing |
| Latex.FractionsKeepOut | widgets.py:621-635 | the fraction step adds no character but `(`, `/` and `)` |
| Latex.TableShape | widgets.py:603-613 | 23 entries; every key has at least two characters and starts with `\`, `^` or `_`; no value holds `$` or a brace |
| Latex.ApplyTable | widgets.py:638-639 | the entries applied in order; `ApplyTableKeepsOut`, `ApplyTableAbsent` and `ApplyTableSplit` state its properties |
| Latex.ApplyTableKeepsOut | widgets.py:638-639 | the table adds no character that is absent from the text and every value |
| Latex.ApplyTableAbsent | widgets.py:638-639 | text holding no key is not changed by the table |
| Latex.ApplyTableSplit | widgets.py:638-639 | applying the entries in order splits at any point into the two halves |
| Latex.TableLeavesPlainText | widgets.py:638-639 | text without `\`, `^` and `_` is not changed by any part of the table |
| Latex.Converted | widgets.py:615-644 | the whole conversion; `ConvertedHasNoDelimiters`, `ConvertedIdentity` and `TableOnly` state its properties |
| Latex.FractionConverted | widgets.py:615-644 | the whole conversion turns `\frac{N}{D}rest` into `(N/D)rest` when N, D and rest hold no `$`, `\`, `^`, `_` or brace |
| Latex.ConvertedHasNoDelimiters | widgets.py:615-644 | the output holds no `$`, `{` or `}` |
| Latex.TableKeepsOut | widgets.py:603-639 | the table introduces no `$` or brace |
| Latex.BracesRemoved | widgets.py:642 | the brace removal leaves no brace and adds no `$` |
| Latex.ConvertedIdentity | widgets.py:615-644 | text without `$`, braces and table keys comes back unchanged |
| Latex.TableOnly | widgets.py:615-644 | for text without `$` and `\frac`, only the table and the brace removal act |
| Latex.ConvertToUnicode | widgets.py:601-644 | the successive steps give `Converted`, with no `$` and no braces |
| Latex.RewriteFractions | widgets.py:621-635 | the loop over the pieces after the first gives the fraction step |
| Latex.ApplyReplacements | widgets.py:637-639 | the loop over the table applies every entry, in the listed order |
| Latex.ApplyEntries | widgets.py:638-639 | the loop over any table applies its entries in order |
| Latex.AlphaExample | widgets.py:604 | `\alpha` becomes α |
| Latex.SquareExample | widgets.py:608 | `x^2` becomes x² |
| Latex.BareFracRule | widgets.py:612-639 | when no earlier key occurs, the table turns every `\frac`, including one without a following `{`, into `/` |
| Latex.BareFracExample | widgets.py:612 | a `\frac` not followed by `{`, as in `\frac12`, becomes `/12` |
| Latex.FractionExample | widgets.py:615-644 | `$\frac{1}{2}$` becomes (1/2) |

## Left out

- The GUI, the event loop, storage and the network are not part of this model.
- `Topic.content` is left out. It is always an empty dictionary, and nothing in the core reads it.
- Percentages are exact reals. IEEE rounding of `(completed / total) * 100` is not modelled.
- `date.today()` and `datetime.now()` become a `today` day number passed in. An achievement keeps only the day it was earned, not the time of day.
- `Observer` is an abstract class with an `update` method. Observers and handlers are opaque identities, and a call to one is recorded as a value. What an observer does when called is not modelled: re-entrant changes to the lists during a notification, exceptions, and keyword arguments of `emit`.
- Topics and units are values inside their subject's list. The getters return copies, not references that a caller could mutate.
- The per-unit progress loop of `update_progress` runs on a value copy of the unit list (`Curriculum.RecomputeUnits`), which then replaces the subject's list.
- `load_subjects` takes typed configuration records. A missing `"units"`, `"icon"` or `"color"` key, which raises `KeyError` in the source, is not modelled. Configurations load in an unspecified order, because each name is handled independently.
- `Curriculum.Subject.UpdateProgress`: requires every unit to be non-empty when the subject has topics. Otherwise the source divides by zero (src/models/subject.py:42).
- `Controller.AppController.SelectTopic`, `Controller.AppController.CompleteTopic`, `Controller.AppController.CompleteSelected`, `Controller.AppController.GetCurrentUnit` and `Controller.AppController.GetCurrentTopic`: require the selected unit index to be within the selected subject (`SelectionInRange`). Only re-loading the selected subject with fewer units breaks this, and the source then raises `IndexError`.
- `Controller.AppController.CompleteTopic` and `Controller.AppController.CompleteSelected`: require non-empty units of the selected subject when it has topics, as `UpdateProgress` does.
- The `try`/`except` around the fraction rewriting (widgets.py:625-634) is not modelled. Python's `find` returns -1 and slicing never raises, so no exception can reach it. The index arithmetic is modelled exactly instead.
- `lessons_completed_today` is never reset in the source, so the model never resets it either.
- `Progress.IntToString`: only states that the text is non-empty. It renders the daily goal and milestone days inside achievement descriptions, whose exact wording no property depends on.
