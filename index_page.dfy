/** The page of src/pages/Index.tsx: which of four views is shown, the form
    being displayed and the saved timetable being viewed, the handlers that
    change them, and `renderView`. */
module IndexPage {
  import opened Wrappers
  import opened Types

  datatype View = Generator | Display | Saved | ViewSaved

  /** The metadata of a stored timetable, as `getTimetableById` returns it. */
  datatype SavedMetadata = SavedMetadata(department: string, semester: string, block: string, classroom: string)

  /** The page's three state fields. */
  datatype PageState = PageState(
    currentView: View,
    timetableInputs: Option<TimetableInputs>,
    viewingTimetableId: Option<string>)

  const INITIAL: PageState := PageState(Generator, None, None)

  /** What the user can do on the page. `ViewTimetable` carries the outcome
      of the fetch, and `BackToSaved` is the back button of a viewed
      timetable. */
  datatype Event =
    | GenerateTimetable(inputs: TimetableInputs)
    | BackToGenerator
    | ViewSavedList
    | ViewTimetable(timetableId: string, fetched: Result<SavedMetadata>)
    | BackToSaved

  /** `{ department, semester, block, classroom, courses: [] }` */
  function InputsOf(m: SavedMetadata): TimetableInputs {
    TimetableInputs(m.department, m.semester, m.block, m.classroom, [])
  }

  /** The state after one handler. */
  function Step(s: PageState, e: Event): PageState {
    match e
    case GenerateTimetable(inputs) => s.(currentView := Display, timetableInputs := Some(inputs))
    case BackToGenerator => s.(currentView := Generator, timetableInputs := None)
    case ViewSavedList => s.(currentView := Saved)
    case ViewTimetable(id, fetched) =>
      if fetched.Err? then s
      else PageState(ViewSaved, Some(InputsOf(fetched.value)), Some(id))
    case BackToSaved => s.(currentView := Saved)
  }

  /** Where a displayed timetable's back button leads. */
  datatype Back = ToGenerator | ToSaved

  datatype Screen =
    | GeneratorScreen
    | DisplayScreen(inputs: TimetableInputs, back: Back)
    | SavedScreen
    | Blank

  /** `renderView` */
  function RenderView(s: PageState): Screen {
    match s.currentView
    case Generator => GeneratorScreen
    case Display => if s.timetableInputs.Some? then DisplayScreen(s.timetableInputs.value, ToGenerator) else Blank
    case Saved => SavedScreen
    case ViewSaved => if s.timetableInputs.Some? then DisplayScreen(s.timetableInputs.value, ToSaved) else Blank
  }

  /** The page as a component with its state hooks. */
  class Page {
    var currentView: View
    var timetableInputs: Option<TimetableInputs>
    var viewingTimetableId: Option<string>

    function State(): PageState
      reads this
    {
      PageState(currentView, timetableInputs, viewingTimetableId)
    }

    constructor ()
      ensures State() == INITIAL
    {
      currentView := Generator;
      timetableInputs := None;
      viewingTimetableId := None;
    }

    method HandleGenerateTimetable(inputs: TimetableInputs)
      modifies this
      ensures currentView == Display && timetableInputs == Some(inputs)
      ensures viewingTimetableId == old(viewingTimetableId)
      ensures State() == Step(old(State()), GenerateTimetable(inputs))
    {
      timetableInputs := Some(inputs);
      currentView := Display;
    }

    method HandleBackToGenerator()
      modifies this
      ensures currentView == Generator && timetableInputs == None
      ensures viewingTimetableId == old(viewingTimetableId)
      ensures State() == Step(old(State()), BackToGenerator)
    {
      currentView := Generator;
      timetableInputs := None;
    }

    method HandleViewSaved()
      modifies this
      ensures currentView == Saved
      ensures timetableInputs == old(timetableInputs) && viewingTimetableId == old(viewingTimetableId)
      ensures State() == Step(old(State()), ViewSavedList)
    {
      currentView := Saved;
    }

    /** `handleViewTimetable` once the fetch has settled: on failure the error
        is logged and nothing changes. */
    method HandleViewTimetable(timetableId: string, fetched: Result<SavedMetadata>)
      modifies this
      ensures fetched.Err? ==> State() == old(State())
      ensures fetched.Ok? ==>
        currentView == ViewSaved && timetableInputs == Some(InputsOf(fetched.value)) &&
        viewingTimetableId == Some(timetableId)
      ensures State() == Step(old(State()), ViewTimetable(timetableId, fetched))
    {
      match fetched {
        case Err(_) =>
        case Ok(timetable) =>
          var inputs := TimetableInputs(timetable.department, timetable.semester, timetable.block, timetable.classroom, []);
          timetableInputs := Some(inputs);
          viewingTimetableId := Some(timetableId);
          currentView := ViewSaved;
      }
    }

    /** The back button of a viewed saved timetable. */
    method HandleBackToSaved()
      modifies this
      ensures currentView == Saved
      ensures timetableInputs == old(timetableInputs) && viewingTimetableId == old(viewingTimetableId)
      ensures State() == Step(old(State()), BackToSaved)
    {
      currentView := Saved;
    }
  }

  /** The state after a sequence of handlers, from the initial one. */
  function Run(events: seq<Event>): PageState
    decreases |events|
  {
    if events == [] then INITIAL else Step(Run(events[..|events| - 1]), events[|events| - 1])
  }

  /** The two views that show a timetable always have one to show. */
  predicate HasInputsToShow(s: PageState) {
    (s.currentView == Display || s.currentView == ViewSaved) ==> s.timetableInputs.Some?
  }

  lemma StepKeepsInputsToShow(s: PageState, e: Event)
    requires HasInputsToShow(s)
    ensures HasInputsToShow(Step(s, e))
  {
  }

  /** Whatever the user does, the page never renders nothing. */
  lemma {:induction false} NeverBlank(events: seq<Event>)
    ensures HasInputsToShow(Run(events))
    ensures RenderView(Run(events)) != Blank
    decreases |events|
  {
    if events != [] {
      NeverBlank(events[..|events| - 1]);
      StepKeepsInputsToShow(Run(events[..|events| - 1]), events[|events| - 1]);
    }
  }

  /** A state with a timetable view and no form renders nothing. */
  lemma BlankWithoutInputs(s: PageState)
    ensures RenderView(s) == Blank <==>
      (s.currentView == Display || s.currentView == ViewSaved) && s.timetableInputs.None?
  {
  }

  /** Generating shows the form's timetable, whose back button returns to
      the generator, which clears the form. */
  lemma GenerateThenBack(s: PageState, inputs: TimetableInputs)
    ensures RenderView(Step(s, GenerateTimetable(inputs))) == DisplayScreen(inputs, ToGenerator)
    ensures Step(Step(s, GenerateTimetable(inputs)), BackToGenerator) ==
      PageState(Generator, None, s.viewingTimetableId)
  {
  }

  /** A fetched timetable is shown with an empty course list; its back
      button leads to the saved list and keeps the form; a failed fetch
      changes nothing. */
  lemma ViewThenBack(s: PageState, id: string, m: SavedMetadata, reason: string)
    ensures RenderView(Step(s, ViewTimetable(id, Ok(m)))) == DisplayScreen(InputsOf(m), ToSaved)
    ensures InputsOf(m).courses == []
    ensures Step(Step(s, ViewTimetable(id, Ok(m))), BackToSaved) ==
      PageState(Saved, Some(InputsOf(m)), Some(id))
    ensures Step(s, ViewTimetable(id, Err(reason))) == s
  {
  }

  /** Only a successful fetch sets the viewed id; going back to the
      generator does not clear it. */
  lemma ViewedIdChangesOnlyOnFetch(s: PageState, e: Event)
    ensures Step(s, e).viewingTimetableId != s.viewingTimetableId ==>
      e.ViewTimetable? && e.fetched.Ok? && Step(s, e).viewingTimetableId == Some(e.timetableId)
  {
  }
}
