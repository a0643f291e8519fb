/** The settings menu of the main window (gui/settings.py): each action
    assigns one key of the switcher's settings in place and writes the whole
    record back to `settings.json`. */
module GuiSettings {
  import opened Common
  import opened Preferences
  import opened Switcher

  class SettingsMenu {
    const switcher: SteamSwitcher

    constructor (switcher: SteamSwitcher)
      ensures this.switcher == switcher
    {
      this.switcher := switcher;
    }

    /** "Show avatars": stores the negation of the current flag (a missing
        flag counts as off), then writes the settings. */
    method SetShowAvatars()
      modifies switcher`prefs, switcher`saved
      ensures switcher.prefs == old(switcher.prefs).(showAvatars := Some(Toggled(old(switcher.prefs.showAvatars))))
      ensures switcher.saved == switcher.Snapshot()
    {
      switcher.prefs := switcher.prefs.(showAvatars := Some(Toggled(switcher.prefs.showAvatars)));
      switcher.SettingsWrite();
    }

    /** "After login": stores the chosen action's data, then writes the settings. */
    method SetAfterLoginAction(itemData: string)
      modifies switcher`prefs, switcher`saved
      ensures switcher.prefs == old(switcher.prefs).(behaviorAfterLogin := itemData)
      ensures switcher.saved == switcher.Snapshot()
    {
      switcher.prefs := switcher.prefs.(behaviorAfterLogin := itemData);
      switcher.SettingsWrite();
    }

    /** "Size": stores the chosen display size, then writes the settings. */
    method SetSize(size: string)
      modifies switcher`prefs, switcher`saved
      ensures switcher.prefs == old(switcher.prefs).(displaySize := size)
      ensures switcher.saved == switcher.Snapshot()
    {
      switcher.prefs := switcher.prefs.(displaySize := size);
      switcher.SettingsWrite();
    }

    /** Choosing "Show avatars" twice restores a flag that was set. */
    method ShowAvatarsTwice()
      requires switcher.prefs.showAvatars.Some?
      modifies switcher`prefs, switcher`saved
      ensures switcher.prefs == old(switcher.prefs)
      ensures switcher.saved == switcher.Snapshot()
    {
      SetShowAvatars();
      SetShowAvatars();
      ToggledTwice(old(switcher.prefs.showAvatars.value));
    }
  }
}
