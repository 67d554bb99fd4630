/**
  The settings dialog of the page: a password gate in front of a form that
  stores the user's API key in local storage.
 */
module Settings {
  import opened Options
  import opened Strings
  import opened Storage

  /** The password that opens the API-key step. */
  const DefaultPassword := "1111"

  /** Which of the dialog's two steps is visible. */
  datatype Step = PasswordStep | ApiKeyStep

  /**
    What a click on "save" writes: the trimmed key, and nothing when the input
    holds only whitespace.
   */
  function KeyToSave(input: string): (saved: Option<string>)
    ensures saved.Some? <==> !AllOf(input, IsJsSpace)
    ensures saved.Some? ==> saved.value != [] && IsTrimmed(saved.value, IsJsSpace)
  {
    var key := Trim(input, IsJsSpace);
    if key != [] then Some(key) else None
  }

  /** A key the dialog saved is saved unchanged when it is loaded back into the input and saved again. */
  lemma SavedKeyIsStable(input: string)
    requires KeyToSave(input).Some?
    ensures KeyToSave(KeyToSave(input).value) == KeyToSave(input)
  {
    TrimmedIsFixed(Trim(input, IsJsSpace), IsJsSpace);
  }

  /**
    A key with whitespace around it is saved as the key itself, and a blank
    input saves nothing.
   */
  lemma SaveTrimsPadding(before: string, key: string, after: string)
    requires AllOf(before, IsJsSpace) && AllOf(after, IsJsSpace)
    requires key != [] && IsTrimmed(key, IsJsSpace)
    ensures KeyToSave(before + key + after) == Some(key)
    ensures KeyToSave(before + after) == None
  {
    TrimPadded(before, key, after, IsJsSpace);
    assert AllOf(before + after, IsJsSpace) by {
      forall k | 0 <= k < |before + after| ensures IsJsSpace((before + after)[k]) {
        if k < |before| {
          assert (before + after)[k] == before[k];
        } else {
          assert (before + after)[k] == after[k - |before|];
        }
      }
    }
  }

  class SettingsPanel {
    const storage: LocalStorage
    var modalShown: bool
    var step: Step
    var passwordInput: string
    var passwordErrorShown: bool
    var apiKeyInput: string
    var savedNoticeShown: bool

    /** The dialog as the page is loaded: closed, on the password step, with empty inputs. */
    constructor (storage: LocalStorage)
      ensures this.storage == storage
      ensures !modalShown && step == PasswordStep && passwordInput == []
      ensures !passwordErrorShown && apiKeyInput == [] && !savedNoticeShown
    {
      this.storage := storage;
      modalShown := false;
      step := PasswordStep;
      passwordInput := [];
      passwordErrorShown := false;
      apiKeyInput := [];
      savedNoticeShown := false;
    }

    /** The gear button: the dialog opens on the password step with the password cleared. */
    method Open()
      modifies this
      ensures modalShown && step == PasswordStep && passwordInput == []
      ensures !passwordErrorShown && !savedNoticeShown
      ensures apiKeyInput == old(apiKeyInput)
    {
      modalShown := true;
      step := PasswordStep;
      passwordInput := [];
      passwordErrorShown := false;
      savedNoticeShown := false;
    }

    /** The close button: only the dialog's visibility changes. */
    method Close()
      modifies this
      ensures !modalShown
      ensures step == old(step) && passwordInput == old(passwordInput) && apiKeyInput == old(apiKeyInput)
      ensures passwordErrorShown == old(passwordErrorShown) && savedNoticeShown == old(savedNoticeShown)
    {
      modalShown := false;
    }

    /** A click on the dialog: it closes only when the click lands on the backdrop itself. */
    method ClickModal(onBackdrop: bool)
      modifies this
      ensures modalShown == (old(modalShown) && !onBackdrop)
      ensures step == old(step) && passwordInput == old(passwordInput) && apiKeyInput == old(apiKeyInput)
      ensures passwordErrorShown == old(passwordErrorShown) && savedNoticeShown == old(savedNoticeShown)
    {
      if onBackdrop {
        modalShown := false;
      }
    }

    /**
      The verify button. The right password moves the dialog to the API-key
      step and loads a stored non-empty key into the input; any other input
      only shows the error. Local storage is read, never written.
     */
    method VerifyPassword()
      modifies this
      ensures step == ApiKeyStep <==> old(passwordInput) == DefaultPassword || old(step) == ApiKeyStep
      ensures passwordErrorShown <==> old(passwordInput) != DefaultPassword
      ensures old(passwordInput) == DefaultPassword
          ==> match storage.GetItem(GrokApiKey)
              case Some(saved) => apiKeyInput == (if saved != [] then saved else old(apiKeyInput))
              case None => apiKeyInput == old(apiKeyInput)
      ensures old(passwordInput) != DefaultPassword ==> step == old(step) && apiKeyInput == old(apiKeyInput)
      ensures modalShown == old(modalShown) && passwordInput == old(passwordInput)
      ensures savedNoticeShown == old(savedNoticeShown)
    {
      if passwordInput == DefaultPassword {
        passwordErrorShown := false;
        step := ApiKeyStep;
        var saved := storage.GetItem(GrokApiKey);
        if saved.Some? && saved.value != [] {
          apiKeyInput := saved.value;
        }
      } else {
        passwordErrorShown := true;
      }
    }

    /** A key press in the password input: Enter verifies, any other key changes nothing. */
    method PasswordKeyPress(key: string)
      modifies this
      ensures key != "Enter"
          ==> step == old(step) && passwordErrorShown == old(passwordErrorShown) && apiKeyInput == old(apiKeyInput)
      ensures key == "Enter" ==> (step == ApiKeyStep <==> old(passwordInput) == DefaultPassword || old(step) == ApiKeyStep)
      ensures key == "Enter" ==> (passwordErrorShown <==> old(passwordInput) != DefaultPassword)
      ensures key == "Enter" && old(passwordInput) == DefaultPassword
          ==> match storage.GetItem(GrokApiKey)
              case Some(saved) => apiKeyInput == (if saved != [] then saved else old(apiKeyInput))
              case None => apiKeyInput == old(apiKeyInput)
      ensures key == "Enter" && old(passwordInput) != DefaultPassword ==> step == old(step) && apiKeyInput == old(apiKeyInput)
      ensures modalShown == old(modalShown) && passwordInput == old(passwordInput)
      ensures savedNoticeShown == old(savedNoticeShown)
    {
      if key == "Enter" {
        VerifyPassword();
      }
    }

    /**
      The save button: a non-blank input is stored trimmed under the key's
      name and the notice appears; a blank input changes nothing at all.
     */
    method SaveApiKey()
      modifies this, storage
      ensures match KeyToSave(apiKeyInput)
        case Some(key) =>
          storage.items == old(storage.items)[GrokApiKey := key] && savedNoticeShown
        case None =>
          storage.items == old(storage.items) && savedNoticeShown == old(savedNoticeShown)
      ensures modalShown == old(modalShown) && step == old(step) && passwordInput == old(passwordInput)
      ensures passwordErrorShown == old(passwordErrorShown) && apiKeyInput == old(apiKeyInput)
    {
      var apiKey := Trim(apiKeyInput, IsJsSpace);
      if apiKey != [] {
        storage.SetItem(GrokApiKey, apiKey);
        savedNoticeShown := true;
      }
    }

    /** A key press in the API-key input: Enter saves, any other key changes nothing. */
    method ApiKeyKeyPress(key: string)
      modifies this, storage
      ensures key == "Enter" ==> match KeyToSave(apiKeyInput)
        case Some(saved) => storage.items == old(storage.items)[GrokApiKey := saved] && savedNoticeShown
        case None => storage.items == old(storage.items) && savedNoticeShown == old(savedNoticeShown)
      ensures key != "Enter" ==> storage.items == old(storage.items) && savedNoticeShown == old(savedNoticeShown)
      ensures modalShown == old(modalShown) && step == old(step) && apiKeyInput == old(apiKeyInput)
      ensures passwordInput == old(passwordInput) && passwordErrorShown == old(passwordErrorShown)
    {
      if key == "Enter" {
        SaveApiKey();
      }
    }
  }
}
