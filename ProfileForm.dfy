/**
 * The profile form (components/ProfileForm.tsx): its three text fields, how it fills them from a
 * stored profile, the check and trimming of its save button, and the picture it shows.
 */
module ProfileForm {
  import opened Wrappers
  import opened JsText
  import opened TaskTypes

  /** Why saving did not produce a profile: the alert asking for both names. */
  datatype ProfileError = MissingName

  /** The picture shown when no image URL is entered. */
  const DefaultImageUrl: string :=
    "https://images.pexels.com/photos/771742/pexels-photo-771742.jpeg?auto=compress&cs=tinysrgb&w=400"

  /** `handleSave`: both names must be non-blank; the profile holds the three trimmed texts. */
  function SaveProfile(firstName: string, lastName: string, imageUrl: string): (r: Result<Profile, ProfileError>)
    ensures r.Failure? <==> Trim(firstName) == [] || Trim(lastName) == []
    ensures r.Success? ==> r.value == Profile(Trim(firstName), Trim(lastName), Trim(imageUrl))
  {
    if Trim(firstName) == [] || Trim(lastName) == [] then Failure(MissingName)
    else Success(Profile(Trim(firstName), Trim(lastName), Trim(imageUrl)))
  }

  /** The save is refused exactly when one of the names is made only of white space. */
  lemma SaveRefusesBlankNames(firstName: string, lastName: string, imageUrl: string)
    ensures SaveProfile(firstName, lastName, imageUrl).Failure? <==> AllTrimmable(firstName) || AllTrimmable(lastName)
  {
    TrimEmptyIff(firstName);
    TrimEmptyIff(lastName);
  }

  /** The image URL plays no part in whether the save goes ahead; an empty one is saved as empty. */
  lemma ImageUrlNeverBlocks(firstName: string, lastName: string, imageUrl: string)
    ensures SaveProfile(firstName, lastName, imageUrl).Success? == SaveProfile(firstName, lastName, "").Success?
    ensures SaveProfile(firstName, lastName, "").Success? ==> SaveProfile(firstName, lastName, "").value.imageUrl == ""
  {
    assert TrimStart("") == "";
  }

  /** A saved profile has non-blank, trimmed names, and saving it again changes nothing. */
  lemma SaveProfileIdempotent(firstName: string, lastName: string, imageUrl: string)
    requires SaveProfile(firstName, lastName, imageUrl).Success?
    ensures var p := SaveProfile(firstName, lastName, imageUrl).value;
      && p.firstName != [] && p.lastName != []
      && SaveProfile(p.firstName, p.lastName, p.imageUrl) == Success(p)
  {
    TrimIdempotent(firstName);
    TrimIdempotent(lastName);
    TrimIdempotent(imageUrl);
  }

  /** The picture shown: the entered URL as typed, or the default one when nothing is entered. */
  function DisplayedImage(imageUrl: string): (u: string)
    ensures imageUrl != [] ==> u == imageUrl
    ensures imageUrl == [] ==> u == DefaultImageUrl
  {
    if imageUrl != [] then imageUrl else DefaultImageUrl
  }

  /** The default picture is shown exactly when no URL is entered, unless the default URL itself is typed. */
  lemma DisplaysDefaultIffEmpty(imageUrl: string)
    requires imageUrl != DefaultImageUrl
    ensures DisplayedImage(imageUrl) == DefaultImageUrl <==> imageUrl == []
  {
  }

  class ProfileFormState {
    var firstName: string
    var lastName: string
    var imageUrl: string

    /** The initial state: three empty texts. */
    constructor ()
      ensures firstName == [] && lastName == [] && imageUrl == []
    {
      firstName := [];
      lastName := [];
      imageUrl := [];
    }

    /** The effect run when a stored profile arrives: all three fields are filled from it; none leaves them. */
    method Load(profile: Option<Profile>)
      modifies this
      ensures profile.Some? ==>
        firstName == profile.value.firstName && lastName == profile.value.lastName && imageUrl == profile.value.imageUrl
      ensures profile.None? ==> firstName == old(firstName) && lastName == old(lastName) && imageUrl == old(imageUrl)
    {
      if profile.Some? {
        firstName := profile.value.firstName;
        lastName := profile.value.lastName;
        imageUrl := profile.value.imageUrl;
      }
    }

    /** `onChangeText` of the first-name input. */
    method SetFirstName(s: string)
      modifies this
      ensures firstName == s && lastName == old(lastName) && imageUrl == old(imageUrl)
    {
      firstName := s;
    }

    /** `onChangeText` of the last-name input. */
    method SetLastName(s: string)
      modifies this
      ensures lastName == s && firstName == old(firstName) && imageUrl == old(imageUrl)
    {
      lastName := s;
    }

    /** `onChangeText` of the image-URL input. */
    method SetImageUrl(s: string)
      modifies this
      ensures imageUrl == s && firstName == old(firstName) && lastName == old(lastName)
    {
      imageUrl := s;
    }

    /** `handleSave` over the current fields. */
    method HandleSave() returns (r: Result<Profile, ProfileError>)
      ensures r == SaveProfile(firstName, lastName, imageUrl)
    {
      var first := Trim(firstName);
      var last := Trim(lastName);
      if first == [] || last == [] {
        return Failure(MissingName);
      }
      r := Success(Profile(first, last, Trim(imageUrl)));
    }
  }
}
