/**
 * One idea card: a small state machine over three modes (view, edit, delete-confirm),
 * the text being edited and a submitting flag. The parent's update and delete
 * callbacks are outside the card; each handler receives the result its callback
 * reports and returns what it handed to that callback.
 */
module IdeaCard {
  import opened JsStrings
  import opened Options
  import opened UseIdeas

  datatype CardMode = View | Edit | DeleteConfirm

  /** The three sub-views the card can render. */
  datatype SubView = ViewPane | EditForm | DeleteDialog

  /** The sub-views rendered for a mode: each is rendered when the mode is its own, so exactly one is. */
  function SubViews(mode: CardMode): (r: set<SubView>)
    ensures |r| == 1
    ensures EditForm in r <==> mode == Edit
    ensures DeleteDialog in r <==> mode == DeleteConfirm
    ensures ViewPane in r <==> mode == View
  {
    (if mode == Edit then {EditForm} else {})
    + (if mode == DeleteConfirm then {DeleteDialog} else {})
    + (if mode == View then {ViewPane} else {})
  }

  /** Edit and delete-confirm are entered only from view; any mode may return to view. */
  predicate Step(from: CardMode, to: CardMode) {
    from == to || from == View || to == View
  }

  class Card {
    var idea: Idea
    var mode: CardMode
    var editContent: JsString
    var isSubmitting: bool

    /** A card starts in view mode with the idea's text ready for editing. */
    constructor (idea: Idea)
      ensures this.idea == idea && mode == View && editContent == idea.content && !isSubmitting
    {
      this.idea := idea;
      mode := View;
      editContent := idea.content;
      isSubmitting := false;
    }

    /**
     * A re-render with a fresh copy of the same idea (the list is keyed by id): the
     * card keeps its own state, so the text being edited is not refreshed.
     */
    method ReceiveIdea(next: Idea)
      requires next.id == idea.id
      modifies this
      ensures idea == next
      ensures mode == old(mode) && editContent == old(editContent) && isSubmitting == old(isSubmitting)
    {
      idea := next;
    }

    /** The view pane's edit button. */
    method StartEdit()
      requires mode == View
      modifies this`mode
      ensures mode == Edit && Step(old(mode), mode)
    {
      mode := Edit;
    }

    /** The view pane's delete button. */
    method StartDelete()
      requires mode == View
      modifies this`mode
      ensures mode == DeleteConfirm && Step(old(mode), mode)
    {
      mode := DeleteConfirm;
    }

    /** The delete dialog's cancel button, disabled while submitting. */
    method CancelDelete()
      requires mode == DeleteConfirm && !isSubmitting
      modifies this`mode
      ensures mode == View && Step(old(mode), mode)
    {
      mode := View;
    }

    /** Typing into the edit form's textarea, which is disabled while submitting. */
    method ChangeContent(text: JsString)
      requires mode == Edit && !isSubmitting
      modifies this`editContent
      ensures editContent == text
    {
      editContent := text;
    }

    /**
     * handleUpdate (the save button, disabled while submitting): blank or unchanged
     * text returns to view with the idea's text restored and calls nobody. Otherwise
     * the idea's id and the text go to the update callback, whose result is `updated`;
     * on success the card returns to view, on failure it stays in edit with the typed
     * text kept.
     */
    method HandleUpdate(updated: bool) returns (sent: Option<(JsString, JsString)>)
      requires mode == Edit && !isSubmitting
      modifies this`mode, this`editContent, this`isSubmitting
      ensures !isSubmitting && Step(old(mode), mode)
      ensures IsBlank(old(editContent)) || old(editContent) == idea.content ==>
        sent == None && mode == View && editContent == idea.content
      ensures !IsBlank(old(editContent)) && old(editContent) != idea.content ==>
        sent == Some((idea.id, old(editContent))) && editContent == old(editContent)
        && mode == if updated then View else Edit
    {
      if IsBlank(editContent) || editContent == idea.content {
        mode := View;
        editContent := idea.content;
        return None;
      }
      isSubmitting := true;
      sent := Some((idea.id, editContent));
      isSubmitting := false;
      if updated {
        mode := View;
      }
    }

    /**
     * handleDelete (the dialog's confirm button, disabled while submitting): hand the
     * idea's id to the delete callback and return to view whatever it reports.
     */
    method HandleDelete(deleted: bool) returns (sentId: JsString)
      requires mode == DeleteConfirm && !isSubmitting
      modifies this`mode, this`isSubmitting
      ensures sentId == idea.id && mode == View && !isSubmitting && Step(old(mode), mode)
    {
      isSubmitting := true;
      sentId := idea.id;
      isSubmitting := false;
      mode := View;
    }

    /** handleCancelEdit (the edit form's cancel button, disabled while submitting). */
    method HandleCancelEdit()
      requires mode == Edit && !isSubmitting
      modifies this`mode, this`editContent
      ensures mode == View && editContent == idea.content && Step(old(mode), mode)
    {
      mode := View;
      editContent := idea.content;
    }
  }
}
