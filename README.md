# cokapp client core in Dafny

This project models the client-side logic of cokapp, a gamified study app for
grades 6 to 9. Learners open micro-lessons of four guardians (Português,
Matemática, Natureza, Humanas) and answer activity sheets. Passing a sheet for the
first time records the completion and awards one fragment of the lesson's
guardian, up to 15 per guardian. Enough fragments of one guardian unlock the next
guardian in the progression order. Administrators write lessons and activities
through step-by-step wizards.

One Dafny module models each core source file:

| module | source |
|---|---|
| `Common` | JavaScript built-ins the code relies on: truthiness, strict equality, `trim`, `toLowerCase`, `includes`, `split`/`join`, `parseInt`, `find`, `filter`, sorting |
| `Activities` | `src/hooks/useActivities.js`, the answer checker |
| `Fragments` | `src/hooks/useFragments.js`: progress, unlocking, the fragment award |
| `UserStats` | `src/hooks/useUserStats.js`: totals, active guardian, study streak |
| `Lessons` | `src/hooks/useLessons.js`: completion records, lesson insert |
| `Notifications` | `src/contexts/NotificationContext.jsx` |
| `Dashboard`, `DashboardComponents` | `src/pages/Dashboard.jsx`, `src/components/DashboardComponents.jsx` |
| `ActivityPage` | `src/pages/ActivityPage.jsx`: answering, submitting, the first-pass award |
| `GuardiansPage`, `LessonsPage`, `LessonView` | `src/pages/Guardians.jsx`, `src/pages/Lessons.jsx`, `src/pages/LessonView.jsx` |
| `AdminComponents`, `AdminLessons`, `AdminActivities` | the administrator's wizards |
| `Register`, `ResetPassword` | the sign-up and password forms |
| `CheckboxQuestion`, `FillBlankQuestion` | the question components |

Code that computes a value is modelled as functions and lemmas. Code that
changes state is modelled as classes:
- the page state of the activity screen and of the two admin wizards;
- the forms;
- the hooks' copies of the `user_fragments` and `completed_lessons` tables.

Methods with loops (the answer checker, the streak and its sorting of study days,
the unit grouping, the option padding, the dashboard's lesson counts and unlocked
guardians) are proved against specification functions.

The backend (Supabase) is not modelled as a service. Every query result, every
error it can return and every id it generates is a parameter of the operation
that uses it. Each of those operations is proved for all of them.

## Model

| member | source | states |
|---|---|---|
| Activities.ValidateAnswers | src/hooks/useActivities.js:127-178 | the loop's report is the specification `Grade`: one entry per activity, the counter and the pass flag |
| Activities.GradeShape | src/hooks/useActivities.js:128-168 | one entry per activity in activity order with its id and the answer at its index; `correct` is the number of correct entries; `0 <= correct <= total == |activities|` |
| Activities.IsCorrect | src/hooks/useActivities.js:133-156 | a quiz answer is correct iff it equals the stored `indice` and is not an array; a correct checkbox answer and its solution are both arrays; a type other than quiz, checkbox and fill-in-the-blank is never correct |
| Activities.Grade | src/hooks/useActivities.js:128-168 | one report entry per activity, each carrying its activity's id; `correct <= total == |activities|`; a sheet with no activities never passes |
| Activities.PassedIff | src/hooks/useActivities.js:168-170 | the sheet passes iff there is an activity and `100 * correct >= 70 * total` |
| Activities.PercentageThreshold | src/hooks/useActivities.js:169-170 | `correct / total * 100 >= 70` is the whole-number inequality `100 * correct >= 70 * total` |
| Activities.EmptySheetFails | src/hooks/useActivities.js:168-170 | no activities: total 0, nothing correct, percentage 0, not passed |
| Activities.QuizCorrectIff | src/hooks/useActivities.js:136-139 | a quiz answer is correct iff it is the same primitive value as the stored `indice`; an array never is |
| Activities.CheckboxCorrectIff | src/hooks/useActivities.js:141-148 | a checkbox answer is correct iff both sides are arrays holding the same indices equally often, in any order |
| Activities.SortedUnique | src/hooks/useActivities.js:144-146 | two sorted copies with the same elements are the same list, so the sorted comparison is multiset equality |
| Activities.FillBlankCorrect | src/hooks/useActivities.js:150-155 | a fill-in-the-blank answer is correct iff its trimmed, lower-cased text equals the stored value's |
| Activities.FillBlankIgnoresPaddingAndCase | src/hooks/useActivities.js:152-154 | white space around the answer and its letter case never change the verdict |
| Activities.UnansweredBlank | src/hooks/useActivities.js:152 | a missing answer counts as `''`: correct iff the stored value is blank |
| Activities.UnknownTypeIncorrect | src/hooks/useActivities.js:133-156 | an activity of any other type is never correct |
| Fragments.FragmentProgress | src/hooks/useFragments.js:57-60 | the quantity of the first row of that kind, a null quantity read as 0, and 0 when the learner has no row of that kind |
| Fragments.PercentOf | src/hooks/useFragments.js:63-66 | never above 100; NaN exactly for 0/0; in [0, 100] for a positive total; exactly 100 once the quantity reaches the total |
| Fragments.PercentMonotone | src/hooks/useFragments.js:63-66 | for a positive total, more fragments never give a smaller percentage |
| Fragments.CheckGuardianUnlock | src/hooks/useFragments.js:112-135 | order 1 is always open; an undefined order, or a missing previous-order or current-order fragment, is locked |
| Fragments.UnlockIff | src/hooks/useFragments.js:115-134 | past order 1, open iff the first previous-order fragment's percentage reaches the first current-order fragment's required percentage (null read as 0) |
| Fragments.UnlockMonotone | src/hooks/useFragments.js:112-135 | collecting fragments never locks a guardian again |
| Fragments.FragmentsWithProgress | src/hooks/useFragments.js:138-143 | same length and order; each fragment kept, with only its quantity, percentage and unlock flag added, and order-1 guardians unlocked |
| Fragments.FragmentStore.Refetch | src/hooks/useFragments.js:13-50 | with a learner and no failure the page's rows become that learner's rows of the table; otherwise nothing changes |
| Fragments.FragmentStore.AddFragments | src/hooks/useFragments.js:69-109 | no learner or a failed write: an error and nothing written; otherwise the award is written and refetched, and every stored quantity stays at most 15 |
| Fragments.WriteAwardCapped | src/hooks/useFragments.js:78-96 | writing an award keeps every stored quantity at most 15 |
| Fragments.WriteAward | src/hooks/useFragments.js:78-96 | the table grows by at most one row; an existing row only changes its quantity, and a changed quantity is at most 15; an added row is the learner's row of that fragment holding `min(amount, 15)` |
| Fragments.RequiredPercentage | src/hooks/useFragments.js:132 | the percentage the guardian asks for; 0 when the fragment has no guardian or the guardian asks for none |
| Fragments.AwardProgress | src/hooks/useFragments.js:74-103 | after the award the learner holds `min(held + amount, 15)` of that kind and exactly as many of every other kind |
| Fragments.AwardProgressExisting | src/hooks/useFragments.js:76-88 | an existing row is raised to `min(held + amount, 15)`; the other kinds are untouched |
| Fragments.AwardProgressNew | src/hooks/useFragments.js:89-99 | without a row, a row of `min(amount, 15)` is inserted; the other kinds are untouched |
| Fragments.AtLeastMonotone | src/hooks/useFragments.js:123-134 | a previous guardian's percentage that reached the required one still reaches it with more fragments collected, so collecting never locks a guardian again |
| Fragments.FragmentStore.constructor | src/hooks/useFragments.js:7-10 | the store starts with the learner, the table and no rows of the learner loaded |
| UserStats.SortedDays | src/hooks/useUserStats.js:96-102 | the distinct completion days, latest first, strictly decreasing, the same days as the completions, and empty only without completions |
| UserStats.CalculateStreak | src/hooks/useUserStats.js:86-128 | the loop's count is `Streak`: the run of consecutive study days ending today when today is the latest study day, else 0 |
| UserStats.AsWrittenIsStreak | src/hooks/useUserStats.js:105-127 | on the latest-first distinct days the loop as written (the grace branch included) counts exactly `Streak` |
| UserStats.RunLengthIff | src/hooks/useUserStats.js:109-125 | a run of length `n` ending on day `d` means the days `d, …, d-n+1` are study days and `d-n` is not |
| UserStats.StreakBounds | src/hooks/useUserStats.js:93-125 | no completions give 0; the streak never exceeds the number of distinct study days |
| UserStats.NoStudyTodayNoStreak | src/hooks/useUserStats.js:117-124 | as written, without a study day today the streak is 0 |
| UserStats.GraceBranchIneffective | src/hooks/useUserStats.js:119-121 | studying only yesterday gives 0 as written, and 1 under the grace rule the comment describes |
| UserStats.GraceAgreesWhenStudiedToday | src/hooks/useUserStats.js:117-118 | with a study day today the code and the grace rule agree |
| UserStats.CalculateStreakWithGrace | src/hooks/useUserStats.js:119-121 | the corrected loop, restarted from yesterday when the latest day is yesterday, counts `StreakWithGrace` |
| UserStats.CorrectedIsStreakWithGrace | src/hooks/useUserStats.js:119-121 | the corrected loop on the latest-first distinct days counts exactly `StreakWithGrace` |
| UserStats.TotalFragments | src/hooks/useUserStats.js:51 | 0 for no rows and the row's quantity (a null one counting 0) for a single row, which with `TotalFragmentsAppend` makes it the sum of the quantities; non-negative for non-negative quantities, and at most 15 per row when every row respects the cap |
| UserStats.TotalFragmentsAppend | src/hooks/useUserStats.js:51 | the total of two lists of rows is the sum of their totals |
| UserStats.ActiveGuardian | src/hooks/useUserStats.js:54-60 | null without rows; a name returned is on a row holding the largest quantity |
| UserStats.ActiveGuardianFirstMax | src/hooks/useUserStats.js:55-59 | the sort is stable, so the first row holding the largest quantity decides: its non-empty guardian name, or null when it has none |
| UserStats.ActiveGuardianOfTop | src/hooks/useUserStats.js:55-59 | a row holding strictly more than every other row, with a non-empty name, names the active guardian |
| UserStats.ProgressPercent | src/hooks/useUserStats.js:67-68 | the integer nearest to `total / 60 * 100`, halves rounded up |
| UserStats.ProgressPercentRange | src/hooks/useUserStats.js:66-68 | in [0, 100] for 0 to 60 fragments, 0 with none and 100 with all 60 |
| Lessons.FetchLessons | src/hooks/useLessons.js:17-28 | only active lessons, only the given guardian's when one is given, in ascending `ordem`, and a permutation of the table's rows that qualify |
| Lessons.FetchLessonsComplete | src/hooks/useLessons.js:17-28 | every active lesson of the guardian is listed |
| Lessons.CreateLesson | src/hooks/useLessons.js:74-80 | guardian, title and content as given; `ordem || 1` (never 0); `ativo ?? true` |
| Lessons.CreateLessonDropsFields | src/hooks/useLessons.js:74-80 | the grade group, unit, videos and images of the form never change the insert |
| Lessons.CreateLessonFull | src/hooks/useLessons.js:74-80 | the corrected insert keeps grade group, unit, videos and images, with the same defaults for the rest |
| Lessons.CreateLessonFullKeepsForm | src/hooks/useLessons.js:74-80 | the corrected insert loses nothing: forms with the same insert are the same form |
| Lessons.CheckLessonCompleted | src/hooks/useLessons.js:154-170 | true only with a learner, a successful lookup and the learner-lesson row present; true when exactly one such row exists; false when two or more exist, because `.maybeSingle()` then returns an error and no data |
| Lessons.MarkOutcomes | src/hooks/useLessons.js:173-198 | already completed iff the check says so, and then nothing changes; an error (no learner, failed insert) adds nothing; otherwise exactly the learner-lesson row is added |
| Lessons.Mark | src/hooks/useLessons.js:173-198 | the table is either unchanged or gains exactly the learner-lesson row, and it changes only on a successful mark that reports neither an error nor an earlier completion |
| Lessons.MarkTwice | src/hooks/useLessons.js:173-198 | a first mark adds the row and reports not completed; a second reports already completed and changes nothing |
| Lessons.CompletionStore.MarkLessonCompleted | src/hooks/useLessons.js:173-198 | the table and the reply become those of `Mark` on the old table; the learner is unchanged |
| Notifications.LoadedList | src/contexts/NotificationContext.jsx:47-54 | exactly the learner's rows of the table, each as often as in the table (same multiset), newest first |
| Notifications.NotificationCenter.constructor | src/contexts/NotificationContext.jsx:11-12 | an empty list and a zero counter, consistent |
| Notifications.NotificationCenter.Load | src/contexts/NotificationContext.jsx:43-57 | no learner or no data: nothing changes; otherwise the loaded list, and the counter is its number of unread notifications |
| Notifications.NotificationCenter.OnInsert | src/contexts/NotificationContext.jsx:72-77 | the new notification is prepended, the rest keep their order, and the counter goes up by exactly 1 |
| Notifications.NotificationCenter.MarkAllAsRead | src/contexts/NotificationContext.jsx:88-101 | a no-op at counter 0 or on a failed update; otherwise every notification read, same length and order, counter 0 |
| Notifications.NotificationCenter.DeleteNotification | src/contexts/NotificationContext.jsx:104-107 | the notifications with that id leave the list; the counter is unchanged, never below the unread left, and exactly one above it when a consistent counter loses its only unread notification with that id |
| Notifications.WithoutId | src/contexts/NotificationContext.jsx:106 | exactly the notifications with another id remain |
| Notifications.WithoutIdIsFilter | src/contexts/NotificationContext.jsx:106 | the remaining notifications keep their order: the result is the filter by a different id |
| Notifications.AllRead | src/contexts/NotificationContext.jsx:98 | same length, each notification with only `read` set |
| Notifications.AllReadNoneUnread | src/contexts/NotificationContext.jsx:98-99 | after marking all read nothing is unread, which the counter's 0 matches |
| Notifications.UnreadCons | src/contexts/NotificationContext.jsx:75-76 | prepending a notification adds one to the unread number exactly when it is unread |
| Notifications.DeleteNeverAddsUnread | src/contexts/NotificationContext.jsx:106 | deleting never raises the number of unread notifications |
| Notifications.DeleteCanOvercount | src/contexts/NotificationContext.jsx:104-107 | for every list in which one unread notification alone carries the id, deleting it lowers the number of unread notifications by exactly 1, which the unchanged counter does not follow |
| Notifications.WithoutAbsentId | src/contexts/NotificationContext.jsx:106 | deleting an id no notification carries leaves the list as it was |
| Dashboard.UserSerie | src/pages/Dashboard.jsx:69 | the learner's group, or `'todos'` when it is missing or empty; never empty |
| Dashboard.GradeMatchesAll | src/pages/Dashboard.jsx:93-95 | a lesson for `'todos'` passes the grade filter of every learner |
| Dashboard.NoGroupNoFilter | src/pages/Dashboard.jsx:69-93 | a learner without a group sees every grade |
| Dashboard.FirstBy | src/pages/Dashboard.jsx:89-113 | `.order(key).limit(1)`: nothing exactly for no rows, else a row with the smallest key |
| Dashboard.GradeMatches | src/pages/Dashboard.jsx:93-95 | the `todos` learner and a lesson for `todos` always pass; a lesson without a grade group passes only for the `todos` learner |
| Dashboard.NextInGuardian | src/pages/Dashboard.jsx:82-95 | a lesson of step 2 is never the last completed lesson and never a step-3 candidate |
| Dashboard.FirstOfOtherGuardian | src/pages/Dashboard.jsx:105-117 | a lesson of step 3 is never the last completed lesson and is also a step-5 candidate |
| Dashboard.OtherGuardianIffAnyGuardian | src/pages/Dashboard.jsx:105-143 | the step-3 candidates are exactly the step-5 candidates of a guardian other than the last completed lesson's |
| Dashboard.NextLesson | src/pages/Dashboard.jsx:59-152 | no unlocked guardian gives no lesson; "completed" only with a last completed lesson; an offered lesson is an active lesson of the table, of an unlocked guardian, that passes the grade filter, and is a first lesson when there is no history |
| Dashboard.UnlockedIds | src/pages/Dashboard.jsx:59-61 | exactly the guardian ids of unlocked fragments that have a guardian |
| Dashboard.NoUnlockedNoLesson | src/pages/Dashboard.jsx:63-66 | with no unlocked guardian the next lesson is null |
| Dashboard.OfferedLessonIsOpen | src/pages/Dashboard.jsx:82-143 | every lesson offered is an active lesson of the table, of an unlocked guardian, passing the grade filter |
| Dashboard.ContinueSameGuardian | src/pages/Dashboard.jsx:81-102 | with history, when the same guardian has a later active lesson, the offer is one of them with the smallest `ordem` |
| Dashboard.OtherGuardianFallback | src/pages/Dashboard.jsx:104-124 | with nothing left in the same guardian, the offer is the earliest created first lesson of another unlocked guardian |
| Dashboard.CompletedIff | src/pages/Dashboard.jsx:126-128 | `'completed'` iff there is history, an unlocked guardian, and neither lookup finds a lesson |
| Dashboard.NewLearnerFirstLesson | src/pages/Dashboard.jsx:131-152 | without history: never `'completed'`; a lesson offered is a first lesson created no later than any other candidate; null iff there is none |
| Dashboard.NextLessonState.FetchNextLesson | src/pages/Dashboard.jsx:55-56 | nothing happens without a learner or a profile; otherwise the state becomes the fallback chain's answer |
| Dashboard.LessonsCount | src/pages/Dashboard.jsx:43-48 | each guardian's count is the number of lesson rows with its id |
| Dashboard.UnlockedGuardians | src/pages/Dashboard.jsx:175-183 | exactly the guardians some unlocked fragment opens; the progress of each is the quantity of the last fragment opening it |
| Dashboard.AvailableGuardians | src/pages/Dashboard.jsx:186-190 | only fetched guardians that are unlocked and have at least one lesson, and every such guardian |
| Dashboard.AvailableGuardiansAppend | src/pages/Dashboard.jsx:186-190 | the carousel keeps the fetched order: the result for two lists joined is the result for the first followed by the result for the second |
| Dashboard.AutoSlide | src/pages/Dashboard.jsx:196-204 | with more than one guardian the slide advances by one and wraps to 0; otherwise it stays |
| Dashboard.AutoSlidesCycle | src/pages/Dashboard.jsx:199-201 | from the first slide, `k` ticks show slide `k mod count` |
| Dashboard.NextLessonState.constructor | src/pages/Dashboard.jsx:23 | the dashboard starts with no next lesson |
| DashboardComponents.AreaKey | src/components/DashboardComponents.jsx:212 | the lower-cased area, or `'portugues'` when it is missing or empty; never empty |
| DashboardComponents.AreaFor | src/components/DashboardComponents.jsx:213-218 | the look of a listed key, and the Português look for any other key |
| DashboardComponents.AreaKeyIgnoresCase | src/components/DashboardComponents.jsx:212 | the look does not depend on how the area is capitalised |
| DashboardComponents.UnknownAreaFallsBack | src/components/DashboardComponents.jsx:213-218 | an unknown area gets the Português colours, slide and the name "Fragmento do Ar" |
| DashboardComponents.FirstName | src/components/DashboardComponents.jsx:74 | the text before the first space, `'Aventureiro'` when it is empty or the name is missing; never empty and never holding a space |
| DashboardComponents.FirstNameIsFirstWord | src/components/DashboardComponents.jsx:74 | a name made of a word, a space and more greets by that word |
| DashboardComponents.FirstNameSingleWord | src/components/DashboardComponents.jsx:74 | a name with no space greets by the whole name, `'Aventureiro'` when it is `''` |
| DashboardComponents.FirstNameLeadingSpace | src/components/DashboardComponents.jsx:74 | a name starting with a space has an empty first piece and greets `'Aventureiro'` |
| DashboardComponents.Badge | src/components/DashboardComponents.jsx:119-126 | hidden at 0, the exact single-digit count for 1 to 9, `'9+'` above 9 |
| DashboardComponents.RoundDiv | src/components/DashboardComponents.jsx:222 | `Math.round(n / d)`: the nearest integer, halves rounded up |
| DashboardComponents.HeroPercent | src/components/DashboardComponents.jsx:221-222 | at most 100, and at least 0 for non-negative progress |
| DashboardComponents.HeroCompleteIff | src/components/DashboardComponents.jsx:222-224 | the slide is complete iff at least 15 fragments are collected |
| DashboardComponents.HeroPercentMonotone | src/components/DashboardComponents.jsx:222 | more fragments never show a smaller percent |
| DashboardComponents.ProgressOf | src/components/DashboardComponents.jsx:221 | the guardian's entry of the progress map, 0 without a map, a guardian or an entry |
| DashboardComponents.HeroSlide | src/components/DashboardComponents.jsx:206-224 | nothing without guardians; the phrase is `currentIndex mod 4`; complete iff 15 fragments; an index past the end shows the Português look at 0 %; otherwise the look of that guardian's area and `HeroPercent` of that guardian's progress, within [0, 100] when the progress values are not negative |
| DashboardComponents.PhrasesCycle | src/components/DashboardComponents.jsx:215 | the phrases repeat every four slides and neighbouring slides differ |
| DashboardComponents.DragTarget | src/components/DashboardComponents.jsx:231-242 | a slide change only when the drag exceeds 50 pixels: forward when dragged left short of the last slide, back when dragged right past the first, and always onto a slide that exists |
| DashboardComponents.DragsStayInRange | src/components/DashboardComponents.jsx:231-242 | any sequence of drags keeps the carousel on a slide that exists |
| DashboardComponents.CurrentLessonCard | src/components/DashboardComponents.jsx:377-425 | the congratulation card iff `'completed'`, no card iff no lesson; otherwise a link to the lesson with `ordem || 1`, `unidade || 1` and the title or `'Comece sua jornada!'`, each stated exactly, in the subject's colours |
| DashboardComponents.CardPercent | src/components/DashboardComponents.jsx:440 | the nearest integer to `progress / 15 * 100`, not capped |
| DashboardComponents.CardPercentUncapped | src/components/DashboardComponents.jsx:222 | up to 15 fragments the card and the carousel agree; above 15 the card shows more than 100 while the carousel shows 100 |
| DashboardComponents.CardLink | src/components/DashboardComponents.jsx:452 | `'#'` exactly for a locked card, else `/lessons/` followed by text that parses back to that guardian's id |
| DashboardComponents.ActiveItems | src/components/DashboardComponents.jsx:587-589 | Início lit on `/dashboard` and `/`; Explorar on `/guardians` and any path starting `/lessons`; the others only on their own path |
| DashboardComponents.IsActive | src/components/DashboardComponents.jsx:587-589 | an item is lit on its own path; an item other than Início and Explorar is lit only there |
| DashboardComponents.AtMostOneActive | src/components/DashboardComponents.jsx:586-589 | whatever the path, at most one item is lit |
| ActivityPage.FinishWeakerThanNext | src/pages/ActivityPage.jsx:205-211 | every answer that enables "Próxima" enables "Finalizar"; an empty selection or `null` finishes without counting as answered; quiz option 0 counts as answered although it is falsy |
| ActivityPage.HasAnswered | src/pages/ActivityPage.jsx:205-211 | a number or a boolean is an answer; a text iff it is not empty; a list iff it is not empty; `undefined` and `null` are not |
| ActivityPage.CanFinish | src/pages/ActivityPage.jsx:452 | every answered question may be finished |
| ActivityPage.Selection | src/pages/ActivityPage.jsx:394 | the current selection is the stored list, or empty when nothing truthy is stored |
| ActivityPage.ToggleCheckbox | src/pages/ActivityPage.jsx:399-405 | clicking a selected option removes every copy of it and keeps the rest; clicking an unselected one appends it |
| ActivityPage.ToggleCheckboxTwice | src/pages/ActivityPage.jsx:399-405 | two clicks on the same option give back the same set of selected options |
| ActivityPage.FragmentKey | src/pages/ActivityPage.jsx:24-25 | the key found is the first of the four area names contained in the lower-cased area; none when there is no area or no name is contained |
| ActivityPage.GetFragmentInfo | src/pages/ActivityPage.jsx:24-30 | the found key's fragment name and emoji, else "Místico" and ✨ |
| ActivityPage.FragmentInfoIgnoresCase | src/pages/ActivityPage.jsx:25 | the fragment shown does not depend on the letter case of the area |
| ActivityPage.Single | src/pages/ActivityPage.jsx:105-123 | a `.single()`/`.maybeSingle()` query yields a matching row exactly when exactly one row matches |
| ActivityPage.AwardCapped | src/pages/ActivityPage.jsx:125-156 | after an award every stored fragment quantity is still at most 15 |
| ActivityPage.Award | src/pages/ActivityPage.jsx:125-156 | the table grows by at most one row; existing rows keep their id, learner and fragment; a failed fragment fetch or write leaves the table unchanged; an added row holds quantity 1 for the learner |
| ActivityPage.PassEffect | src/pages/ActivityPage.jsx:86-168 | a review, a missing learner or a missing guardian leaves the fragment table alone; otherwise the fragment table gets the award; without a learner nothing is recorded and it is not a review |
| ActivityPage.AwardRaisesExistingRow | src/pages/ActivityPage.jsx:125-140 | with the learner's row found, that row becomes `min(q + 1, 15)` (a missing quantity read as 0) and every other row is unchanged |
| ActivityPage.AwardInsertsRow | src/pages/ActivityPage.jsx:141-156 | without a row of the learner for the fragment, exactly one row with quantity 1 is appended |
| ActivityPage.NoAwardWhenAlreadyCompleted | src/pages/ActivityPage.jsx:88-98 | when the lesson was already completed a pass changes neither table and the celebration is a review |
| ActivityPage.LookupFailureAwardsAgain | src/pages/ActivityPage.jsx:89-95 | a failed completion lookup reads as "not completed", so a repeat pass is awarded again |
| ActivityPage.AwardOnlyOnFirstPass | src/pages/ActivityPage.jsx:86-168 | after a first pass that records the completion, a second pass is a review and changes neither table |
| ActivityPage.ActivityRunner.constructor | src/pages/ActivityPage.jsx:54-59 | the page opens on question 0 with no answers, no result and no overlay |
| ActivityPage.ActivityRunner.HandleAnswer | src/pages/ActivityPage.jsx:72-74 | the answer at the given index is replaced and every other answer and all other state is kept |
| ActivityPage.ActivityRunner.ClickCheckbox | src/pages/ActivityPage.jsx:399-405 | the current question's answer becomes its toggled selection; nothing else changes |
| ActivityPage.ActivityRunner.Next | src/pages/ActivityPage.jsx:438-441 | moves one question on only before the last question and only when the current one is answered |
| ActivityPage.ActivityRunner.Previous | src/pages/ActivityPage.jsx:429-431 | moves one question back from the second question on |
| ActivityPage.ActivityRunner.HandleSubmit | src/pages/ActivityPage.jsx:76-172 | stores the grade of the answers; below the pass mark shows the result and writes nothing; on a pass the tables and review flag become the pass effect and the celebration shows |
| ActivityPage.ActivityRunner.Retry | src/pages/ActivityPage.jsx:268-274 | back to question 0 with no answers, no result and the result screen closed |
| AdminActivities.PadOptions | src/pages/admin/AdminActivities.jsx:103-104 | the padding loop yields exactly `PaddedOptions`: the stored options (or four blanks) followed by blanks up to four |
| AdminActivities.PaddedOptionsKeepStored | src/pages/admin/AdminActivities.jsx:103-104 | padding keeps the stored options first and in order, makes at least four, adds only blanks, and so leaves the options that would be saved unchanged |
| AdminActivities.BlanksFilterEmpty | src/pages/admin/AdminActivities.jsx:190 | blank options are never saved |
| AdminActivities.AppendBlankKeepsOptions | src/pages/admin/AdminActivities.jsx:190 | an extra empty option changes nothing that is saved |
| AdminActivities.EditActivityForm | src/pages/admin/AdminActivities.jsx:106-115 | the edit form copies lesson, type, question and position; a numeric stored index, an index list and a text answer are copied and missing ones default to 0, the empty list and the empty text |
| AdminActivities.GuardianOfLesson | src/pages/admin/AdminActivities.jsx:118-119 | the guardian of the first listed lesson with the activity's lesson id, none exactly when no lesson has that id |
| AdminActivities.EditFindsChosenGuardian | src/pages/admin/AdminActivities.jsx:78-81 | with unique lesson ids, editing an activity of a lesson offered under a guardian selects that guardian again (lines 118-119) |
| AdminActivities.Encode | src/pages/admin/AdminActivities.jsx:190-217 | the saved row keeps lesson, type, question and position; for a known type its options are exactly the filter of the form options by non-blank, in order, and its answer is the one field of that type; an unknown type saves no options and no answer |
| AdminActivities.CanProceed | src/pages/admin/AdminActivities.jsx:143-156 | only steps 0 to 3 can proceed, and the question step needs a question with a character that is not white space |
| AdminActivities.PaddedOptions | src/pages/admin/AdminActivities.jsx:103-104 | `max(n, 4)` options: the stored ones first and unchanged (four blanks when none are stored), then only blanks |
| AdminActivities.SubmittedChoicesHaveTwoOptions | src/pages/admin/AdminActivities.jsx:148-152 | a quiz or checkbox that passes the last step's check is saved with at least two options |
| AdminActivities.EncodeShiftsQuizAnswer | src/pages/admin/AdminActivities.jsx:190-198 | marking "A" among `["", "A", "B", ""]` saves `["A", "B"]` with index 1, so choosing "A" is graded wrong and "B" right |
| AdminActivities.RankSelects | src/pages/admin/AdminActivities.jsx:190 | a non-blank option at form position k is found at its rank among the saved options |
| AdminActivities.RemapIndices | src/pages/admin/AdminActivities.jsx:200-202 | the remapped checkbox indices are exactly the ranks of the marked non-blank options |
| AdminActivities.EncodeRemapped | src/pages/admin/AdminActivities.jsx:190-217 | the corrected row has the same fields and options as the written one, and is identical for every type other than quiz and checkbox |
| AdminActivities.RemappedQuizGradesMarked | src/pages/admin/AdminActivities.jsx:196-198 | with the corrected row, the learner who picks the option the admin marked is graded correct, and every other choice is graded wrong |
| AdminActivities.RemappedCheckboxKeepsMarked | src/pages/admin/AdminActivities.jsx:200-202 | with the corrected row every saved index selects a marked non-blank option, and every marked non-blank option is saved |
| AdminActivities.RankWithoutBlanks | src/pages/admin/AdminActivities.jsx:190 | with no blank options, ranks are the form positions, so the written and corrected rows agree |
| AdminActivities.ActivityWizard.constructor | src/pages/admin/AdminActivities.jsx:20-38 | the page opens on the list, step 0, with no guardian, the blank quiz form, nothing edited, not saving, no message |
| AdminActivities.ActivityWizard.StartCreate | src/pages/admin/AdminActivities.jsx:83-98 | opens the wizard at step 0 with the blank quiz form, no guardian and nothing being edited |
| AdminActivities.ActivityWizard.Edit | src/pages/admin/AdminActivities.jsx:100-123 | opens the edit view at the question step with the activity's padded form and its lesson's guardian |
| AdminActivities.ActivityWizard.Cancel | src/pages/admin/AdminActivities.jsx:137-141 | back to the list at step 0 with nothing being edited; the form is kept |
| AdminActivities.ActivityWizard.Back | src/pages/admin/AdminActivities.jsx:165-169 | one step back, never below the first |
| AdminActivities.ActivityWizard.SelectGuardian | src/pages/admin/AdminActivities.jsx:289-291 | choosing a guardian clears the chosen lesson |
| AdminActivities.ActivityWizard.SetOption | src/pages/admin/AdminActivities.jsx:171-175 | one option's text replaced, every other option and field kept |
| AdminActivities.ActivityWizard.ToggleCheckbox | src/pages/admin/AdminActivities.jsx:177-183 | the index is removed from the marked list if present, appended otherwise |
| AdminActivities.ActivityWizard.SetOrdem | src/pages/admin/AdminActivities.jsx:438 | the position becomes the parsed number, 1 when it does not parse or is 0 |
| AdminActivities.ActivityWizard.Next | src/pages/admin/AdminActivities.jsx:157-163 | before the last step one step on; on the last step the encoded row is written (an update when editing, an insert otherwise), and the list is shown on success or the error on failure; saving ends false |
| AdminActivities.ActivityWizard.Delete | src/pages/admin/AdminActivities.jsx:125-135 | nothing without confirmation; otherwise the deletion is asked for and its error or success message shown |
| AdminActivities.ActivityWizard.SelectLesson | src/pages/admin/AdminActivities.jsx:305 | the chosen lesson is set and everything else kept |
| AdminActivities.ActivityWizard.SelectType | src/pages/admin/AdminActivities.jsx:318 | the type is set and the options and answers typed so far are kept |
| AdminComponents.GetGuardianTheme | src/components/admin/AdminComponents.jsx:45-48 | the theme of the first key (in key order) the area contains, compared with case; the Português theme when there is no area or no key is contained |
| AdminComponents.ThemeIsCaseSensitive | src/components/admin/AdminComponents.jsx:46 | any area written in lower case gets the Português theme, whatever it names |
| AdminComponents.KeepGrades | src/components/admin/AdminComponents.jsx:243 | keeps exactly the non-empty parts other than "todos" |
| AdminComponents.KeepGradesAll | src/components/admin/AdminComponents.jsx:243 | parts that are all grades are kept unchanged |
| AdminComponents.Grades | src/components/admin/AdminComponents.jsx:243 | the grades read from the selection text are non-empty, not "todos" and free of commas |
| AdminComponents.HandleToggle | src/components/admin/AdminComponents.jsx:231-253 | "todos" selects "todos"; from "todos", or in single mode, a grade replaces the selection; a button value never yields an empty selection |
| AdminComponents.GradesOfJoin | src/components/admin/AdminComponents.jsx:243-248 | joining grades with commas and splitting again gives the same grades |
| AdminComponents.ToggleGrades | src/components/admin/AdminComponents.jsx:242-251 | in multiple mode a grade click toggles that grade in the list of selected grades, with the rest kept in order |
| AdminComponents.GradesOfOne | src/components/admin/AdminComponents.jsx:237-240 | a single grade written as the selection reads back as that one grade |
| AdminComponents.AddGrade | src/components/admin/AdminComponents.jsx:248 | an unselected grade is appended to the selected grades |
| AdminComponents.GradesOfTodos | src/components/admin/AdminComponents.jsx:243 | the selection "todos" holds no grade |
| AdminComponents.RemoveGrade | src/components/admin/AdminComponents.jsx:244-246 | a selected grade is removed and the others kept; removing the last gives "todos" |
| AdminComponents.ToggleTwiceSameGrades | src/components/admin/AdminComponents.jsx:231-253 | two clicks on the same grade give back the same set of grades |
| AdminComponents.IsSelectedIff | src/components/admin/AdminComponents.jsx:255-258 | for a selection made of grade buttons a grade shows as selected exactly when it is in the list; "todos" shows no grade selected |
| AdminComponents.IsSelected | src/components/admin/AdminComponents.jsx:255-258 | nothing is selected without a selection; a value is selected when it is the whole selection; "todos" is selected exactly by the selection "todos" |
| AdminComponents.Decrement | src/components/admin/AdminComponents.jsx:311 | "−" gives one less, never below 1 |
| AdminComponents.IncrementThenDecrement | src/components/admin/AdminComponents.jsx:311-327 | from any position of at least 1, "+" then "−" returns to it |
| AdminComponents.PositionInput | src/components/admin/AdminComponents.jsx:321 | the typed number, 1 when the text does not parse or is 0; never 0 |
| AdminComponents.PositionInputRoundTrip | src/components/admin/AdminComponents.jsx:321 | a typed position other than 0 reads back as typed, including negatives; 0 becomes 1 |
| AdminComponents.LessonsFor | src/components/admin/AdminComponents.jsx:413-415 | all lessons when no guardian is given, otherwise exactly the lessons of that guardian |
| AdminComponents.OneCurrentStep | src/components/admin/AdminComponents.jsx:136-149 | while a step in range is shown exactly that step is current, every earlier one done and every later one upcoming |
| AdminComponents.StatusOf | src/components/admin/AdminComponents.jsx:136-149 | a step is done exactly when it is before the current one and upcoming exactly when it is after it |
| AdminComponents.Footer | src/components/admin/AdminComponents.jsx:183-194 | "Voltar" shows exactly after the first step; the next button is enabled exactly when the step may proceed and nothing is being saved |
| AdminLessons.ExistingPositions | src/pages/admin/AdminLessons.jsx:70-75 | the positions of the lessons in the chosen guardian and unit, ascending, each as often as it occurs |
| AdminLessons.ExistingPositionsIff | src/pages/admin/AdminLessons.jsx:70-75 | a position is listed exactly when some lesson of the chosen guardian and unit has it, so with no guardian chosen nothing is listed |
| AdminLessons.EditForm | src/pages/admin/AdminLessons.jsx:96-106 | the edit form copies the lesson's fields; a missing or empty grade group reads as "todos", a missing or zero unit as 1, missing lists as empty |
| AdminLessons.EditFormRoundTrip | src/pages/admin/AdminLessons.jsx:96-106 | a lesson saved from a complete form loads back as that same form |
| AdminLessons.ContentStepGuardsInsert | src/pages/admin/AdminLessons.jsx:135 | a form that may leave the content step has a title and a content each with a character that is not white space, and the insert keeps both as typed |
| AdminLessons.NotAllSpace | src/pages/admin/AdminLessons.jsx:135 | text whose trim is not empty has a character that is not white space |
| AdminLessons.CanProceed | src/pages/admin/AdminLessons.jsx:129-138 | only steps 0 to 4 can proceed, and the content step needs a title and a content that each have a character that is not white space |
| AdminLessons.UnknownStepBlocks | src/pages/admin/AdminLessons.jsx:136 | no step outside 0 to 4 may proceed |
| AdminLessons.PositionControlsAndStep | src/pages/admin/AdminLessons.jsx:134 | the "−" and "+" buttons never close the position step; a typed negative position does |
| AdminLessons.AddVideo | src/pages/admin/AdminLessons.jsx:310-313 | an empty address is appended to the videos and nothing else changes |
| AdminLessons.SetVideo | src/pages/admin/AdminLessons.jsx:331-335 | one video address replaced, the others and the rest of the form kept |
| AdminLessons.RemoveVideo | src/pages/admin/AdminLessons.jsx:341-344 | the video at the index is removed and nothing else changes |
| AdminLessons.AddThenRemoveVideo | src/pages/admin/AdminLessons.jsx:310-344 | adding a video and removing it again gives back the form |
| AdminLessons.AddImage | src/pages/admin/AdminLessons.jsx:366-369 | a blank image is appended and nothing else changes |
| AdminLessons.RemoveImage | src/pages/admin/AdminLessons.jsx:388-391 | the image at the index is removed and nothing else changes |
| AdminLessons.AddThenRemoveImage | src/pages/admin/AdminLessons.jsx:366-391 | adding an image and removing it again gives back the form |
| AdminLessons.SetImageField | src/pages/admin/AdminLessons.jsx:402-428 | typing changes only the one field of the one image; other images and the rest of the form are kept |
| AdminLessons.LessonWizard.constructor | src/pages/admin/AdminLessons.jsx:27-38 | the page opens on the list at step 0 with the blank form, nothing edited, not saving, no message |
| AdminLessons.LessonWizard.StartCreate | src/pages/admin/AdminLessons.jsx:77-92 | opens the wizard at step 0 with the blank form and nothing being edited |
| AdminLessons.LessonWizard.Edit | src/pages/admin/AdminLessons.jsx:94-109 | opens the edit view at the content step with the lesson's form |
| AdminLessons.LessonWizard.SelectGuardian | src/pages/admin/AdminLessons.jsx:230 | sets the guardian and keeps the rest |
| AdminLessons.LessonWizard.SelectSeries | src/pages/admin/AdminLessons.jsx:242 | sets the grade group and keeps the rest |
| AdminLessons.LessonWizard.SelectUnit | src/pages/admin/AdminLessons.jsx:254 | sets the unit and keeps the rest |
| AdminLessons.LessonWizard.SetPosition | src/pages/admin/AdminLessons.jsx:266 | sets the position and keeps the rest |
| AdminLessons.LessonWizard.SetTitulo | src/pages/admin/AdminLessons.jsx:283 | sets the title and keeps the rest |
| AdminLessons.LessonWizard.SetConteudo | src/pages/admin/AdminLessons.jsx:294 | sets the content and keeps the rest |
| AdminLessons.LessonWizard.Cancel | src/pages/admin/AdminLessons.jsx:123-127 | back to the list at step 0 with nothing being edited; the form is kept |
| AdminLessons.LessonWizard.Back | src/pages/admin/AdminLessons.jsx:149-153 | one step back, never below the first |
| AdminLessons.LessonWizard.Next | src/pages/admin/AdminLessons.jsx:140-178 | before the last step one step on; on the last step the whole form is written as an update when editing or as `createLesson`'s insert otherwise, with the list shown on success or the error on failure; saving ends false |
| AdminLessons.LessonWizard.Delete | src/pages/admin/AdminLessons.jsx:111-121 | nothing without confirmation; otherwise the deletion is asked for and its error or success message shown |
| GuardiansPage.GetTheme | src/pages/Guardians.jsx:22-26 | the first theme key (in key order) the area contains, compared with case; "default" when there is no area or no key is contained |
| GuardiansPage.ThemeIsCaseSensitive | src/pages/Guardians.jsx:24 | an area written in lower case always gets the default theme |
| GuardiansPage.TruthyAreas | src/pages/Guardians.jsx:35 | exactly the non-empty areas of the fragments |
| GuardiansPage.TruthyAreasAppend | src/pages/Guardians.jsx:35 | the areas of two lists joined are those of the first list followed by those of the second |
| Common.DistinctOrder | src/pages/Guardians.jsx:35-36 | `Array.from(new Set(s))` keeps the order of first appearance: of two kept elements the earlier first appears earlier |
| GuardiansPage.Areas | src/pages/Guardians.jsx:34-37 | "Todos" first, then every non-empty area exactly once, in the order the areas first appear among the fragments |
| GuardiansPage.FilteredGuardians | src/pages/Guardians.jsx:40-46 | exactly the fragments in the chosen area (any area for "Todos") whose guardian's name contains the search text, ignoring case |
| GuardiansPage.FilteredGuardiansAppend | src/pages/Guardians.jsx:40-46 | the filter keeps the fragments' order: the list for two lists joined is the list for the first followed by the list for the second |
| GuardiansPage.ShowAllInitially | src/pages/Guardians.jsx:30-31 | with "Todos" and no search text every fragment is listed, in order |
| GuardiansPage.SearchIgnoresCase | src/pages/Guardians.jsx:43 | lower-casing the search text does not change the list |
| GuardiansPage.FilterSame | src/pages/Guardians.jsx:43 | search texts equal up to case list the same fragments |
| GuardiansPage.FoundByNamePiece | src/pages/Guardians.jsx:43 | a fragment is found by any piece of its guardian's name, typed in upper case |
| GuardiansPage.ToUpperAscii | src/pages/Guardians.jsx:43 | upper-cases exactly the ASCII letters and keeps the length |
| GuardiansPage.ToLowerUpperAscii | src/pages/Guardians.jsx:43 | lower-casing after upper-casing equals lower-casing |
| GuardiansPage.SumPercentBounds | src/pages/Guardians.jsx:51 | percentages between 0 and 100 sum to at most 100 per fragment |
| GuardiansPage.TotalProgress | src/pages/Guardians.jsx:49-53 | 0 without fragments, otherwise the mean percentage rounded to the nearest whole number, between 0 and 100 when each percentage is |
| GuardiansPage.MeanBounds | src/pages/Guardians.jsx:51-52 | the mean of percentages between 0 and 100 is between 0 and 100 |
| GuardiansPage.UnlockedCount | src/pages/Guardians.jsx:72 | the header counts exactly the unlocked fragments |
| GuardiansPage.TotalQuantityBounds | src/pages/Guardians.jsx:116 | with at most 15 of each kind the total badge is between 0 and 15 per fragment |
| GuardiansPage.TotalQuantity | src/pages/Guardians.jsx:116 | 0 without fragments; the fragment's quantity for a single fragment |
| GuardiansPage.TotalQuantityAppend | src/pages/Guardians.jsx:116 | the total of two lists joined is the sum of their totals |
| GuardiansPage.AreaCount | src/pages/Guardians.jsx:124-145 | a fragment card's count is the quantity of the first fragment of that area, 0 when there is none |
| GuardiansPage.CardProgress | src/pages/Guardians.jsx:241 | the card's bar is the percentage capped at 100 |
| GuardiansPage.PreviousGuardian | src/pages/Guardians.jsx:244-246 | the first fragment whose guardian has the order just before the card's, none when no fragment has it |
| GuardiansPage.LockMessageNamesDecidingGuardian | src/pages/Guardians.jsx:244-247 | past the first order, the guardian named in the lock message is the one whose percentage decides the lock, compared with the percentage shown as required |
| GuardiansPage.CompleteCardIsFull | src/pages/Guardians.jsx:241 | a fragment with all its pieces collected shows a full bar |
| Register.PasswordProblem | src/pages/Register.jsx:29-37 | no problem exactly when the two passwords match and have at least 6 characters; a mismatch is reported before a short password |
| Register.Validate | src/pages/Register.jsx:29-47 | the form passes exactly when the passwords match, have at least 6 characters and a birth date and a grade are given; otherwise the first failing check's message, in the source's order |
| Register.OnlyFirstFailureReported | src/pages/Register.jsx:29-47 | a mismatch is always the message shown; the grade message means every earlier check passed |
| Register.OfferedGradesParse | src/pages/Register.jsx:216-220 | each offered grade 6 to 9 is sent as the number it shows |
| Register.RegisterForm.constructor | src/pages/Register.jsx:9-21 | the form opens empty, with no avatar, no error, not loading |
| Register.RegisterForm.Submit | src/pages/Register.jsx:25-87 | a failed check shows its message and sends nothing; otherwise the sign-up request carries the fields with the grade parsed as a number, and the service's answer is handled as in `Answer`; the typed fields are kept |
| Register.RegisterForm.Answer | src/pages/Register.jsx:63-86 | a service error is shown (the fallback text when its message is empty) and loading ends; on success the avatar is kept for the new user, if there is both, and the learner goes to the dashboard |
| ResetPassword.ResetForm.constructor | src/pages/ResetPassword.jsx:6-10 | the form opens empty, with no messages, not loading and no navigation scheduled |
| ResetPassword.ResetForm.Submit | src/pages/ResetPassword.jsx:27-53 | both messages are cleared; a failed check shows its message and sends nothing; otherwise the password is sent, its error shown or the success message shown with the dashboard scheduled, and loading ends |
| ResetPassword.ResetAcceptsWhatSignUpAccepts | src/pages/ResetPassword.jsx:32-40 | given a birth date and a grade, the reset form accepts exactly the passwords sign-up accepts (src/pages/Register.jsx:29-37) |
| LessonsPage.AreaColor | src/pages/Lessons.jsx:16-19 | the colours of the first key (in key order) the lower-cased area contains; indigo for no area or no key contained; the same lookup serves src/pages/LessonView.jsx:16-19 |
| LessonsPage.AreaColorIgnoresCase | src/pages/Lessons.jsx:17 | the colours do not depend on the letter case of the area |
| LessonsPage.UnitOf | src/pages/Lessons.jsx:43 | a lesson's unit, with a missing or zero unit read as 1; never 0 |
| LessonsPage.GroupByUnit | src/pages/Lessons.jsx:40-48 | the grouping loop yields exactly the specification `Units` |
| LessonsPage.UnitsAreFilters | src/pages/Lessons.jsx:40-48 | a unit has a group exactly when some lesson is in it, and its group is the lessons of that unit in list order |
| LessonsPage.Units | src/pages/Lessons.jsx:40-48 | every group is non-empty and holds only lessons of the list that belong to its unit |
| LessonsPage.NoUnitMeansUnitOne | src/pages/Lessons.jsx:43 | a lesson without a unit (or with unit 0) is listed under unit 1 |
| LessonsPage.UnitOrder | src/pages/Lessons.jsx:108 | every unit with a group exactly once, in strictly ascending order |
| LessonsPage.UnitList | src/pages/Lessons.jsx:107-108 | the units shown are exactly those some lesson belongs to |
| LessonsPage.LessonCard | src/pages/Lessons.jsx:158-182 | a lesson is locked exactly when it is not active; a locked card links to "#" and shows a lock, an open one links to its lesson page and shows its position in the unit plus one |
| LessonsPage.CardLinkNamesLesson | src/pages/Lessons.jsx:168 | an open card never links to "#", and two open cards with the same link show the same lesson |
| LessonView.MatchAt | src/pages/LessonView.jsx:23 | a match at a position exactly when one of the three address forms starts there followed by an 11-character id, and the capture is such an id |
| LessonView.SearchFrom | src/pages/LessonView.jsx:23 | the match at the first position from which the pattern matches, none when it matches nowhere |
| LessonView.GetYouTubeId | src/pages/LessonView.jsx:22-24 | no id for an undefined address or one where the pattern matches nowhere; otherwise the 11-character id of the leftmost match |
| LessonView.ElevenCharsTaken | src/pages/LessonView.jsx:23 | after any of the three forms exactly the 11 id characters are taken, whatever follows |
| LessonView.MatchAnywhere | src/pages/LessonView.jsx:23 | the match is unanchored: text in front of an address with an id does not lose the id |
| LessonView.PlayerFor | src/pages/LessonView.jsx:164-173 | a plain video of the address exactly when no id is found, otherwise the embed address of the id |
| LessonView.EmbedRoundTrip | src/pages/LessonView.jsx:164-173 | the embed address yields again the id it was built from |
| LessonView.EmbedAddressYields | src/pages/LessonView.jsx:166 | the embed address of any id yields that id |
| LessonView.ProgressWidth | src/pages/LessonView.jsx:89 | the bar is full exactly for a completed lesson, never over 100 |
| CheckboxQuestion.HandleToggle | src/components/activities/CheckboxQuestion.jsx:4-12 | nothing happens while the result is shown; otherwise a selected option is removed, every copy of it, and the rest kept, and an unselected one appended |
| CheckboxQuestion.ToggleTwiceRestores | src/components/activities/CheckboxQuestion.jsx:4-12 | two clicks on one option give back the same set of selected options, and the very same list when it was not selected |
| CheckboxQuestion.OptionShade | src/components/activities/CheckboxQuestion.jsx:33-50 | blue exactly for a selected option before the result; green exactly for a correct option in the result; red exactly for a selected wrong option in the result |
| CheckboxQuestion.ExactSelectionHasNoRed | src/components/activities/CheckboxQuestion.jsx:33-50 | a selection holding exactly the correct options shows no red, and green exactly on the selected options |
| CheckboxQuestion.CardShade | src/components/activities/CheckboxQuestion.jsx:15-19 | plain before the result; in the result green exactly when the answer was correct, red otherwise |
| FillBlankQuestion.BlankShows | src/components/activities/FillBlankQuestion.jsx:26 | the blank shows the typed value, or the placeholder when nothing is typed; never empty |
| FillBlankQuestion.RenderPergunta | src/components/activities/FillBlankQuestion.jsx:8-31 | the question is shown unchanged exactly when it has no `___`; otherwise with the blank showing `BlankShows` |
| FillBlankQuestion.FirstBlankCut | src/components/activities/FillBlankQuestion.jsx:9-28 | with the first `___` at `i`, even among overlapping blanks, the text before the blank is exactly the text before `i`; with no `___` starting after that one, all the rest follows the blank |
| FillBlankQuestion.OneBlankShowsAll | src/components/activities/FillBlankQuestion.jsx:9-28 | with exactly one `___` the text before it, the blank and all the text after it are shown |
| FillBlankQuestion.SecondBlankDropsRest | src/components/activities/FillBlankQuestion.jsx:9-28 | with a second `___` only the text up to it is shown after the blank; the rest of the question is dropped |
| FillBlankQuestion.CardView | src/components/activities/FillBlankQuestion.jsx:47-95 | the correct answer shows exactly in a result that is not correct; the text field and the option buttons show only before the result, the buttons when there are options, one per option, the chosen one highlighted |
| FillBlankQuestion.ChosenOptionHighlighted | src/components/activities/FillBlankQuestion.jsx:66-70 | after clicking an option its button, and exactly the buttons with the same text, are highlighted |

## Left out

- Network, storage and timers:
  - every Supabase query, insert, update, delete and realtime event is a parameter, including its error and its rows;
  - `localStorage`, `FileReader` (the avatar's base64 text) and `setTimeout` are recorded as the action asked for, not performed;
  - the reset form's redirect without a recovery session (src/pages/ResetPassword.jsx:14-25) is a timer and is not modelled.
- Concurrency: the hooks' async calls are modelled as happening one after another. Interleaved React state updates and stale closures are not modelled.
- Floating point: finite percentages are exact reals, and `Math.round(x)` is `floor(x + 1/2)`. Rounding error in the division is not modelled. `NaN` (0/0) is a value of its own.
- Dates are whole day numbers in one time zone. `toDateString`, local midnight and daylight saving are not modelled.
- When a database order has ties, the table order decides. Postgres may return tied rows in another order.
- Text is a sequence of characters:
  - lower-casing covers ASCII and the Latin-1 letters the app's names use;
  - JavaScript measures string length in UTF-16 units, which differs only for characters outside the Basic Multilingual Plane.
- Ids are integers. A guardian or lesson id of 0 would be falsy in the source, where `!!id` tests a choice. The model treats "chosen" as `Some(id)`.
- The comma-separated `or` filter built from `grupo_serie` (src/pages/Dashboard.jsx) is modelled on its intent, "matches the learner's grade or `todos`". A grade text containing a comma or a parenthesis would change the query, and that is not modelled.
- Quantities of `user_fragments` are never negative. Negative values written directly into the database are not modelled.
- Drag offsets of the carousel are whole pixels.
- Styling (class names, colours other than the area tables, animation) is not modelled. The one exception is where a colour encodes a decision: result shading, locked cards.
- The lesson list's banner emoji, its lesson-count label and its guardian fetch are presentation only and are not modelled.
- src/components/activities/QuizQuestion.jsx is styling around a single choice and is not part of this model.
- `updateLesson`, `fetchAllLessons`, `fetchAllActivities` and the other admin fetches are backend calls. They are parameters of the wizards.
- The lesson screen's lesson and completion fetches are parameters, as is the video tab that sets the current video index. `getAreaColor` appears twice in the source, in src/pages/Lessons.jsx:16-19 and src/pages/LessonView.jsx:16-19. It is modelled once, as `LessonsPage.AreaColor`.
- FillBlankQuestion's `useOptions` state (src/components/activities/FillBlankQuestion.jsx:5) is never read and is not modelled.
- AdminActivities.ActivityWizard.Edit: the source pads the fetched `dados.opcoes` array in place (src/pages/admin/AdminActivities.jsx:103-104), mutating the listed activity. The model pads a copy.
- CheckboxQuestion.OptionShade: a `correctAnswer.indices` value that is not an array counts as marking no option.
- ActivityPage.Selection: a truthy stored answer that is not an array does not arise from the page's own buttons. It is read as no selection.
- AdminLessons.LessonWizard.Next: after a save the source stays on the last step. The model keeps that, and does not model the list refetch.
- GuardiansPage.FilteredGuardians: its `Joined` precondition leaves out fragments without a guardian or without a guardian name. The source throws a TypeError on them (src/pages/Guardians.jsx:43), and the thrown error is not modelled. `GuardiansPage.Areas` reads such a fragment as having no area, where the source throws as well (src/pages/Guardians.jsx:35).
- AdminComponents.PositionInput: a typed negative position is kept, as in the source. `PositionControlsAndStep` shows that the position step then blocks.

## Findings

The page methods (`ActivityPage`, `AdminLessons.LessonWizard`, `AdminActivities.ActivityWizard`, `UserStats.CalculateStreak`) keep the behaviour as written, so that they match their source. The corrected definitions stand beside them, with the intended property proved.

| source | as written | input that shows it | evidently intended | confidence | as-written member | corrected member |
|---|---|---|---|---|---|---|
| src/hooks/useUserStats.js:119-121 | when the latest study day is yesterday, the first iteration only skips, and the next compares the second day with yesterday | study days = {yesterday}: streak 0 | the comment says to keep counting from yesterday: streak 1 | not executed; the comment states the intent | UserStats.GraceBranchIneffective | UserStats.CorrectedIsStreakWithGrace |
| src/hooks/useLessons.js:74-80 | the insert writes only guardian, title, content, position and `ativo` | a wizard form with unit 2, grade "7" and one video: the new row keeps none of them | the wizard's grade group, unit, videos and images are saved, as `updateLesson` saves them | not executed; the wizard collects these fields in its own steps | Lessons.CreateLessonDropsFields | Lessons.CreateLessonFullKeepsForm |
| src/pages/admin/AdminActivities.jsx:190-208 | blank options are dropped, but the marked quiz index and checkbox indices still count positions among all the options | options `["", "A", "B", ""]` with "A" marked (index 1): saved `["A", "B"]` with index 1, so "B" is graded correct | the stored indices point at the marked options within the saved list | not executed | AdminActivities.EncodeShiftsQuizAnswer | AdminActivities.RemappedQuizGradesMarked |
